# A verified model of go-winio's hard parts

go-winio gives Go programs Windows-specific I/O: named pipes and files with asynchronous
completion and deadlines, Win32 backup streams and their translation to and from tar, and
readers for WIM images. This project models the parts of it where correctness is not visible
from any one function, and proves what they promise for every input, every schedule and every
reachable state.

| modules | what they model |
|---|---|
| `Bits`, `LittleEndian`, `Wrappers` | bit strings, shifts, fixed-width and little-endian integers |
| `Huffman`, `HuffmanTable` | canonical prefix codes, and the two-level decoding table built for them |
| `LzxSpec` | the compressed format of a WIM chunk as a simple specification: a bit sequence, prefix codes, runs of code lengths, a token list, an LZ77 interpreter with three recent offsets |
| `LzxRegister`, `LzxReader`, `LzxTrees`, `LzxBlocks` | the decompressor: a 32-bit register fed by 16-bit words from a refillable buffer, up to whole chunks; each layer refines `LzxSpec` |
| `LzxWriter`, `LzxRoundTrip` | the same format from its writer's side, and that the decompressor returns what was written |
| `LzxExamples` | inputs on which the decompressor errs or panics |
| `E8` | the x86 call-address translation |
| `FileClose`, `Deadline` | asynchronous operations, Close, and the resettable deadline, as transition systems |
| `PipeListener`, `MessagePipe` | the listener's channel protocol, and end of file by zero-byte messages |
| `ExtendedAttributes`, `PaxTime`, `BackupStream` | three codecs and their round trips |
| `Sparse`, `BackupTar`, `TarTranslation`, `BackupFromTar` | sparse files made dense, and the translation between backup streams and tar |
| `ChunkedReader`, `WimChunks` | random access to a compressed WIM resource, for any chunk decompressor and for LZX chunks |

Code that updates things in place is modelled by classes and methods with loops, each proved
against a function of its input or old state. The concurrent protocols are transition systems with
one step per lock section, atomic operation, system call or channel rendezvous; `Runs`
and `Reachable` range over all schedules with any number of participants. Panics of the source are
outcomes of the model, not preconditions, except where a precondition is stated as the invariant
that the callers keep.

## What the proofs found

- A word of which one byte is buffered and only one is unread is reported as the end of the
  input although its bits are there (`LzxReader.Decompressor.SplitWordIsLost`; `LzxExamples.SplitWordMissed` is such
  an input): `ensureAtLeast` asks the reader for as many bytes as are needed in all, not for as many as are missing.
  For the same reason a codeword that is wholly in the register is refused when one odd byte is still
  unread (`LzxReader.Decompressor.GetCode`, `LzxExamples.OddByteMissed`). A reader that fills the buffer causes neither if
  the input fits the buffer, or consists of whole words without an uncompressed block (`LzxBlocks.Uncompress`).
- The panic "impossible: more than one 16-bit word remains" is reached exactly when at least
  21 bits are in the register and a full uncompressed block follows (`LzxBlocks.ReadBlockHeader`). That takes an empty
  block before it, or a full uncompressed block that cannot fit the window (`LzxBlocks.DecodeAll`), so it is out of
  reach in runs of non-empty blocks that fit. `LzxExamples.ImpossiblePanic` is an input that reaches it.
- An unusable pre-tree makes `readTree` dereference nil (`LzxTrees.ReadTree`, `LzxExamples.NilTable`).
- `decodeE8` is a bijection for every non-negative offset; for other offsets it is one exactly when
  the scan meets no address strictly between -12000000 and 0, after wrapping at 32 bits (`E8.InjectiveExactly`).
- `Close` of a pipe listener can wait for ever when `connectPipe` fails with something other than
  `ErrFileClosed` after its pipe was closed (`PipeListener.CloseCanHang`); otherwise it returns after a bounded
  number of steps (`PipeListener.WaitingCloseReturns`).
- Skipping a payload by seeking and by reading agree exactly when the payload is all there
  (`BackupStream.SkippingAgrees`). A stream cut before a name or before the offset of a sparse block looks like its
  regular end, and no other cut does (`BackupStream.LooksEnded`, `BackupStream.CutStreamEnds`).
- A chunk that merely ends early is passed over without an error (`ChunkedReader.FailsExactly`). An uncompressed
  block of which nothing more can be read ends `lzx.Read` with plain `io.EOF` (`LzxBlocks.ReadRaw`,
  `LzxExamples.PlainEof`), and the chunked reader takes that for the end of the chunk.
- The translation to tar refuses sparse files when its input can seek, because the first pass does not know sparse
  blocks (`BackupTar.SparseFileRefusedTwice`), though it can translate them when the input cannot
  (`BackupTar.SparseFileBecomesDense`). Attributes after the data are lost when the input cannot seek (`BackupTar.HeaderKnows`), and
  alternate streams are lost without a data stream (`BackupTar.NoDataNoStreams`).
- A resource opened at an offset less than a chunk below zero is read from its start; at lower offsets opening panics
  (`ChunkedReader.NewCompressedReader`).

## Model

| member | source | states |
|---|---|---|
| `Huffman.PrefixFree` | wim/lzx/lzx.go:152-218 | no bit string starts with the codewords of two symbols, for any code lengths |
| `Huffman.EndIsKraft` | wim/lzx/lzx.go:168-179 | the running code computed from the length counts is the Kraft sum |
| `Huffman.CompleteDecodes` | wim/lzx/lzx.go:152-218 | with Kraft sum one every bit string starts with exactly one codeword |
| `Huffman.DecodeUnique` | wim/lzx/lzx.go:222-254 | decoding inverts coding: the symbol whose codeword starts the bits is the one found |
| `HuffmanTable.CountLengths` | wim/lzx/lzx.go:153-162 | the counts of each length, and the longest length in use |
| `HuffmanTable.FirstCodes` | wim/lzx/lzx.go:168-175 | the first canonical code of every length, and the Kraft sum at the longest |
| `HuffmanTable.PlaceAll` | wim/lzx/lzx.go:181-217 | every first- and second-level slot in a codeword's interval holds that codeword's symbol and length |
| `HuffmanTable.FilledDecodes` | wim/lzx/lzx.go:232-238 | lookup in filled tables stays in range and finds the codeword that starts the register, for every 32-bit register |
| `HuffmanTable.ColumnBits` | wim/lzx/lzx.go:232-238 | the first- and second-level indices together are the leading bits of the register |
| `HuffmanTable.BuildTable` | wim/lzx/lzx.go:152-218 | nil exactly when the lengths are not all zero and the Kraft sum is not one; otherwise a table that decodes every register |
| `LzxSpec.StartsWithUnique` | wim/lzx/lzx.go:222-254 | at most one symbol can be next in a bit sequence |
| `LzxSpec.BytesOfStreamOf` | wim/lzx/lzx.go:118-127 | bytes to 16-bit little-endian words of bits and back is the identity, an odd last byte included |
| `LzxRegister.FeedStream` | wim/lzx/lzx.go:118-127 | feeding a word into the register leaves the abstract bit sequence as it was |
| `LzxRegister.TakeStream` | wim/lzx/lzx.go:131-141 | shifting the register removes exactly the first n bits of the sequence and returns their value |
| `LzxReader.CodeStream` | wim/lzx/lzx.go:222-254 | table lookup on the register is decoding of the abstract sequence |
| `LzxReader.Decompressor.constructor` | wim/lzx/lzx.go:587-598 | the state NewReader makes for a size it accepts stands for the whole input, all recent offsets one, all code lengths zero |
| `LzxReader.Decompressor.Fail` | wim/lzx/lzx.go:81-87 | the first error is kept and the buffer is dropped |
| `LzxReader.Decompressor.EnsureAtLeast` | wim/lzx/lzx.go:89-113 | succeeds exactly when enough is buffered or as much again is unread, and moves no byte of the input |
| `LzxReader.Decompressor.Feed` | wim/lzx/lzx.go:118-127 | adds one word without changing the sequence, and when it fails or ends |
| `LzxReader.Decompressor.GetBits` | wim/lzx/lzx.go:131-141 | returns and removes exactly the first n bits, across refills; fails exactly when the register is short and no word can be fed; notes exactly the failures on bits that are there, and that these are split words |
| `LzxReader.Decompressor.GetCode` | wim/lzx/lzx.go:222-254 | returns the unique canonical codeword at the front and removes exactly its length; the exact condition of failure; notes exactly the failures on codewords that are there |
| `LzxReader.Decompressor.SplitWordIsLost` | wim/lzx/lzx.go:89-127 | bits that are there cannot be fed exactly when the last word is split one byte buffered, one unread |
| `LzxExamples.SplitWordMissed` | wim/lzx/lzx.go:89-141 | any four bytes of which the first Read returns three: the second word is there and getBits fails |
| `LzxExamples.OddByteMissed` | wim/lzx/lzx.go:118-127 | any three bytes of which the first Read returns two: a codeword in the register is refused because of the odd byte |
| `LzxTrees.ReadRun` | wim/lzx/lzx.go:278-317 | one run of code lengths as the format describes it; an error only where the format has none or a read missed what is there |
| `LzxTrees.StoreRun` | wim/lzx/lzx.go:284-314 | a run rewrites exactly its positions as the format expands it; that this is the difference modulo 17 to the previous lengths is `LzxWriter.RunsReadBack` |
| `LzxTrees.ReadRuns` | wim/lzx/lzx.go:276-323 | terminates; on success each position is set exactly once, all lengths at most 16, nothing else touched; an error only where the format has no such lengths or a read missed them |
| `LzxTrees.ReadTree` | wim/lzx/lzx.go:260-323 | the code lengths the format describes from the previous block's; panics exactly on an unusable pre-tree; an error only where the format has none or a read missed it |
| `LzxTrees.ReadTrees` | wim/lzx/lzx.go:390-430 | all trees of a block, kept for the next block, with tables that decode them; panics exactly when the first failure is an unusable pre-tree |
| `LzxBlocks.BaseTable` | wim/lzx/lzx.go:37-49 | the base positions are the partial sums of the slots' sizes |
| `LzxBlocks.FooterTable` | wim/lzx/lzx.go:37-49 | the footer widths are those of the format |
| `LzxSpec.BaseThirty` | wim/lzx/lzx.go:37-49 | the thirty slots end at 32768 |
| `LzxSpec.TokenOffset` | wim/lzx/lzx.go:466-490 | every newly coded offset lies in 1..32765 |
| `LzxSpec.LruStaysInRange` | wim/lzx/lzx.go:434-502 | over a compressed block every recent offset stays in 1..32765 |
| `LzxSpec.LruAcrossBlocks` | wim/lzx/lzx.go:434-536 | over any number of compressed blocks every recent offset stays in 1..32765 |
| `LzxSpec.RepeatedStep` | wim/lzx/lzx.go:497-499 | the periodic repetition satisfies the recurrence of a byte-by-byte copy |
| `LzxBlocks.CopyBytes` | wim/lzx/lzx.go:496-499 | the copy loop leaves the periodic repetition of the last `offset` bytes, overlapping copies included |
| `LzxBlocks.ReadToken` | wim/lzx/lzx.go:437-485 | one token of the format: literal, recent offset, or new offset; an error only where there is none or a read missed it |
| `LzxBlocks.TouchLru` | wim/lzx/lzx.go:460-490 | the recent offsets are the format's after the token, and the offset is the one it uses; what that is, slot by slot, is `LzxWriter.TouchMeans` |
| `LzxBlocks.ApplyToken` | wim/lzx/lzx.go:441-499 | the effect of a token on window and recent offsets, or rejection exactly when the interpreter rejects it |
| `LzxBlocks.ReadCompressedBlock` | wim/lzx/lzx.go:434-502 | a block that fits leaves window, recent offsets and input as the token interpreter does, and fails only if the interpreter does or a read missed what is there; only a block that does not fit runs off the window |
| `LzxBlocks.ReadBlockHeader` | wim/lzx/lzx.go:325-386 | realignment, type, size and stored offsets as in the format, an error only where the format has no header or a read missed it; the exact condition of the panic |
| `LzxBlocks.ReadRaw` | wim/lzx/lzx.go:505-528 | an uncompressed block is the next bytes of the input, from buffer and reader, and where the input continues; plain io.EOF exactly when bytes are lacking and the reader has none |
| `LzxBlocks.ReadBlock` | wim/lzx/lzx.go:505-536 | one block refines the format's block; each panic and plain io.EOF with the block that causes it; when nothing can be missed |
| `LzxBlocks.DecodeAll` | wim/lzx/lzx.go:562-575 | the loop refines the format's run of blocks followed by the call translation; errors and panics are those of the first block that cannot be decoded; the header panic needs an empty block, or a full uncompressed one that cannot fit |
| `LzxSpec.StopIs` | wim/lzx/lzx.go:562-575 | a run of blocks has a result exactly when it does not stop before the end, and stops only where there is no block |
| `LzxBlocks.NoBlock` | wim/lzx/lzx.go:505-536 | a block that does not fit, is cut short or has an unusable pre-tree is none |
| `LzxBlocks.Uncompress` | wim/lzx/lzx.go:562-598 | from bytes to bytes, for readers with any portions: the chunk the format describes. If the reader fills the buffer and the input fits it, or is whole words without an uncompressed block, it succeeds exactly when the format describes a chunk, but for an empty block; sizes above 32768 are refused |
| `LzxExamples.PlainEof` | wim/lzx/lzx.go:525-527 | sixteen bytes on which Read returns plain io.EOF |
| `LzxExamples.NilTable` | wim/lzx/lzx.go:269-274 | twelve bytes on which Read panics on an unusable pre-tree |
| `LzxExamples.ReadEmptyBlock` | wim/lzx/lzx.go:505-536 | 134 bytes whose first block is empty and leaves 27 bits in the register |
| `LzxExamples.ImpossiblePanic` | wim/lzx/lzx.go:356-359 | on these bytes the second turn of the loop panics in the header |
| `LzxSpec.WordOrder` | wim/lzx/lzx.go:118-127 | words are little-endian and read from their most significant bit on |
| `LzxWriter.GetCoded` | wim/lzx/lzx.go:222-254 | a codeword of a usable code, written most significant bit first, is read back, and nothing more |
| `LzxWriter.RunsReadBack` | wim/lzx/lzx.go:276-323 | for any old and new lengths and any division into differences modulo 17, runs of 4..19 and 20..51 zeros and runs of 4 or 5 equal lengths: exactly the new lengths are read, from exactly those bits |
| `LzxWriter.TreeReadBack` | wim/lzx/lzx.go:260-323 | the same with the pre-tree in front, twenty numbers of four bits |
| `LzxWriter.TouchMeans` | wim/lzx/lzx.go:460-490 | the recent offsets slot by slot: a repeated one changes places with the first; a new one comes first and the previous two move up |
| `LzxWriter.ApplyPlays` | wim/lzx/lzx.go:440-499 | a token, whichever way it gives its offset, does to the output what a plain byte-by-byte copy does, and to the recent offsets what the choice says |
| `LzxWriter.TokenReadBack` | wim/lzx/lzx.go:437-490 | every literal, and every match of 2..257 bytes, repeated or from 1..32765 back, is read back from its symbols and footer, with and without an aligned-offset code |
| `LzxWriter.ItemsReadBack` | wim/lzx/lzx.go:434-502 | a block means its plain list of bytes and copies, for every choice of giving each offset anew or as a recent one |
| `LzxWriter.CodesReadBack` | wim/lzx/lzx.go:390-430 | the codes of a block, in the order aligned offsets, main in two halves, lengths |
| `LzxWriter.BlockReadBack` | wim/lzx/lzx.go:505-536 | a compressed block, verbatim or with aligned offsets, or a stored block with its padding and recent offsets, is read back, wherever it starts |
| `LzxWriter.ChunkReadBack` | wim/lzx/lzx.go:562-575 | a chunk written with any blocks, codes, divisions and choices is read back as the writer's output |
| `LzxRoundTrip.WrittenChunkIsRead` | wim/lzx/lzx.go:540-575 | so is its contents, through the call translation |
| `LzxRoundTrip.UncompressWritten` | wim/lzx/lzx.go:562-598 | the decompressor on such a chunk returns the contents or an error, and the contents if nothing is missed and no block is empty |
| `LzxRoundTrip.EveryContentsCanBeWritten` | wim/lzx/lzx.go:505-528 | every contents of up to 32768 bytes has a chunk |
| `LzxRoundTrip.EveryListCanBeWritten` | wim/lzx/lzx.go:434-502 | every plain list, with every choice of recent offsets, has a compressed block, after any others |
| `LzxRoundTrip.RepeatedOffsetMovesUp` | wim/lzx/lzx.go:461-465 | an example in which a repeated offset is used again from the front: abcdbcccefff |
| `E8.TranslationsInvert` | wim/lzx/lzx.go:546-556 | at a non-negative address both translations invert each other and permute -address..12000000 |
| `E8.TranslateInverts` | wim/lzx/lzx.go:540-560 | rewriting does not change which positions are scanned: each direction undoes the other on whole strings |
| `E8.DecodeE8Bijective` | wim/lzx/lzx.go:540-560 | for every offset up to the limit `decodeE8` has a two-sided inverse |
| `E8.InjectiveExactly` | wim/lzx/lzx.go:540-560 | for every offset, wrapped at 32 bits as in the source: one-to-one on strings of a length exactly when the scan meets no lossy address |
| `E8.LossyStrings` | wim/lzx/lzx.go:540-560 | two different strings with the same image whenever it does, for every offset |
| `E8.MeetsLossyInRange` | wim/lzx/lzx.go:546-548 | within 32 bits the lossy addresses are those strictly between -12000000 and 0 |
| `E8.DecodeE8InPlace` | wim/lzx/lzx.go:540-560 | the in-place loop computes the translation and touches nothing else |
| `E8.CallBecomesRelative` | wim/lzx/lzx.go:545-557 | what becomes of a call at any address: its target less the address, or plus 12000000, or itself |
| `E8.OneCall` | wim/lzx/lzx.go:540-560 | one call in bytes, and none beyond the last offset |
| `FileClose.StepKeeps` | file.go:131-281 | every step of every participant keeps the invariant |
| `FileClose.ClosedOnceAndQuietly` | file.go:131-171 | in every reachable state the handle has been closed at most once, and only with no operation between prepareIO and wg.Done |
| `FileClose.HandleOpenWhenUsed` | file.go:131-281 | the handle is open at every step that passes it to the system |
| `FileClose.NoEntryAfterClosing` | file.go:160-171 | once closing is set no operation ever gets in |
| `FileClose.NoCancellationLost` | file.go:131-145 | while the closer waits, every pending operation is cancelled or has yet to look at closing |
| `FileClose.FileClosedMeansClosing` | file.go:191-235 | ErrFileClosed is returned only after closing began; a wait after a timeout is cancelled |
| `FileClose.ResultDecided` | file.go:191-281 | in every run what an operation returned follows from the run, exactly: ErrFileClosed, ErrTimeout, the outcome of the call, or a bare abort |
| `FileClose.CloseIsNoBareAbort` | file.go:196-214 | an operation cancelled by Close, or by itself because of Close, never returns a bare abort |
| `FileClose.OneCompletionEach` | file.go:174-235 | in every run an operation that is about to leave has received exactly one completion if it went pending, and none otherwise |
| `FileClose.RunsEnd` | file.go:131-281 | every run is finite, with an explicit bound |
| `FileClose.CloseReturns` | file.go:131-145 | when nothing more is bound to happen every operation and every Close has returned and the handle is closed once |
| `Deadline.StepKeeps` | file.go:299-338 | every step of set, callbacks and captures keeps the invariant |
| `Deadline.NeverClosedTwice` | file.go:299-338 | no deadline channel is closed twice in any interleaving |
| `Deadline.OneLiveTimer` | file.go:299-338 | at most one timer can still fire, and it is the current one |
| `Deadline.CapturedIsCurrentOrClosed` | file.go:200-205 | every captured channel is closed or still current |
| `Deadline.TimedOutMeansClosed` | file.go:299-338 | with setLock free and no callback half-way, timedout holds exactly when the current channel is closed; that deadlines do take effect is in the next rows |
| `Deadline.PastDeadlineTimesOut` | file.go:323-336 | when set with a past deadline has returned, operations time out and every captured channel is closed, until another set |
| `Deadline.PastDeadlineWakes` | file.go:200-227 | whoever captured the channel at any time before finds it closed then |
| `Deadline.FutureDeadlineTimesOut` | file.go:329-332 | with a future deadline: nothing times out before its timer fires; when its callback is done operations time out and every captured channel is closed |
| `Deadline.NoDeadlineNoTimeout` | file.go:309-321 | without a deadline nothing times out, whatever was set before |
| `Deadline.SetNeverHangs` | file.go:299-308 | a set call that waits for the old callback waits for one that is on its way |
| `PipeListener.StepKeeps` | pipe.go:416-486 | every step of routine, goroutines, Accept and Close keeps the invariant |
| `PipeListener.OneResponseEach` | pipe.go:459-486 | in every run each request is taken at most once and answered exactly once, save the one being served; which answer it gets is in the next rows |
| `PipeListener.ConnectDecides` | pipe.go:441-446 | a connected pipe is what Accept returns, open; a client that went away leaves the request waiting for a new pipe; another error is Accept's |
| `PipeListener.MakeDecides` | pipe.go:429-433 | a pipe that cannot be made is Accept's error |
| `PipeListener.AbortDecides` | pipe.go:447-455 | after Close took the pipe: success and ErrFileClosed are reported as a closed listener, a client that went away is retried, another error is Accept's |
| `PipeListener.AfterAnswer` | pipe.go:470-480 | after an answer the routine takes every further request, and ends exactly after reporting the listener closed |
| `PipeListener.ClosedOnlyByClose` | pipe.go:459-486 | the listener is reported closed, and ends, only after a Close was taken |
| `PipeListener.AcceptedIsConnected` | pipe.go:540-573 | in every run a pipe that Accept returned was connected by connectPipe |
| `PipeListener.PipeFate` | pipe.go:416-486 | each server pipe is with the routine, or handed to exactly one Accept, or closed exactly once |
| `PipeListener.NothingLeftBehind` | pipe.go:459-486 | when the routine has ended no pipe, goroutine or request is left |
| `PipeListener.FirstHandleClosedOnce` | pipe.go:482-485 | the first handle is closed once, and before doneCh |
| `PipeListener.NothingTakenAfterwards` | pipe.go:459-486 | after the loop no request is taken and no pipe made, in any run |
| `PipeListener.WaitingCloseMovesOn` | pipe.go:447-455 | in every reachable state in which a Close waits the routine has committed to closing and some step is possible, unless connectPipe failed unexpectedly on an aborted pipe |
| `PipeListener.CloseReturns` | pipe.go:459-486 | once a Close was taken every step of anybody lowers a rank, so every run is short, and one that can go no further has returned from Close, with the first handle closed once; unless connectPipe failed unexpectedly |
| `PipeListener.WaitingCloseReturns` | pipe.go:575-582 | from every reachable state in which a Close waits: at most six steps of the routine, a bound on the whole run, and at its end Close has returned |
| `PipeListener.CloseCanHang` | pipe.go:447-477 | a run after which Close waits for ever |
| `MessagePipe.StepKeeps` | pipe.go:147-196 | bytes sent are bytes received and bytes queued, and only the last message after CloseWrite is empty |
| `MessagePipe.ReadsAreAPrefix` | pipe.go:147-196 | in every interleaving bytes read are a prefix of bytes written |
| `MessagePipe.EofExactly` | pipe.go:177-196 | a read returns EOF exactly when the writer closed and everything it wrote was read |
| `MessagePipe.EofIsPermanent` | pipe.go:177-196 | after EOF every later read in every run returns EOF |
| `MessagePipe.EmptyWriteIsNothing` | pipe.go:163-173 | a zero-length write changes nothing |
| `MessagePipe.NewPipe` | pipe.go:147-196 | two ends whose links are fresh in both directions, so that every run of their methods is a run of the transition system |
| `MessagePipe.MessageBytePipe.CloseWrite` | pipe.go:147-161 | takes the link to the reader exactly one CloseWrite step further, and reports what became of it |
| `MessagePipe.MessageBytePipe.Write` | pipe.go:165-173 | takes the link to the reader exactly one Write step further: the bytes reported written are those added to what the reader will get, all of them or none |
| `MessagePipe.MessageBytePipe.Read` | pipe.go:177-196 | takes the link from the writer exactly one Read step further and returns that step's result; waits exactly when no message is there; empty buffers included |
| `ExtendedAttributes.ParseEa` | ea.go:31-58 | every parsed entry shortens the buffer and has fields in their ranges |
| `ExtendedAttributes.DecodeExtendedAttributes` | ea.go:60-71 | terminates on every buffer with the chain of entries, or an error exactly if one is malformed |
| `ExtendedAttributes.EncodeExtendedAttributes` | ea.go:123-137 | fails exactly on the first entry that does not fit; otherwise the encoding |
| `ExtendedAttributes.DecodeEncodeWith` | ea.go:31-137 | decoding an encoding gives the list back, flags included, whatever follows the last entry |
| `ExtendedAttributes.RoundTrip` | ea.go:31-137 | the round trip for every list that fits, with the final padding there, cut or replaced |
| `ExtendedAttributes.DecodedReencodes` | ea.go:31-137 | whatever decodes can be encoded again, to the same list |
| `ExtendedAttributes.EntriesAligned` | ea.go:73-121 | entry i is found at its place in the encoding, a multiple of four, and the encoding of the rest follows |
| `ExtendedAttributes.FieldsAt` | ea.go:73-121 | the value of every byte of an entry, field by field |
| `ExtendedAttributes.TwoAttributes` | ea_test.go:15-22 | the bytes of foo=bar and fizz=buzz |
| `PaxTime.ParseFormatInt` | backuptar/strconv.go:20-70 | every 64-bit number is read back from its decimal form |
| `PaxTime.FractionRoundTrip` | backuptar/strconv.go:20-70 | nine digits with trailing zeros trimmed and padded again give the nanoseconds back |
| `PaxTime.RoundTrip` | backuptar/strconv.go:20-70 | parsing inverts formatting for every 64-bit seconds and every nanoseconds, negative times and `-0.x` included |
| `PaxTime.TextDenotes` | backuptar/strconv.go:54-70 | the text is a sign, whole seconds and a fraction without trailing zeros, and its decimal value is the time |
| `PaxTime.TextIsRead` | backuptar/strconv.go:20-52 | a text of that form is read as the time of its decimal value |
| `PaxTime.HalfSeconds` | backuptar/strconv.go:54-70 | -0.5, -1.5 and 1.5 |
| `BackupStream.HeaderRoundTrip` | backup.go:93-117 | a written header is read back, sparse offsets and names included, whatever follows |
| `BackupStream.FieldsAt` | backup.go:149-180 | where every field of a header is; a sparse block's size counts its offset |
| `BackupStream.NameAt` | backup.go:102-108 | names are little-endian UTF-16 |
| `BackupStream.StreamNumbers` | backup.go:22-33 | the stream numbers of the Windows interface |
| `BackupStream.OneHeader` | backup.go:149-180 | the bytes of one header |
| `BackupStream.NameRoundTrip` | backup.go:102-108 | names without NUL come back from their bytes |
| `BackupStream.LooksEnded` | backup.go:93-117 | a stream looks ended exactly when it is empty or cut before a name or before a sparse offset |
| `BackupStream.CutHeaderLooksEnded` | backup.go:93-117 | every header cut there looks like the end |
| `BackupStream.CutStreamEnds` | backup.go:77-117 | one such stream, on which Next reports the regular end |
| `BackupStream.Writer.WriteHeader` | backup.go:149-180 | refuses while payload is missing; otherwise writes exactly the header's bytes or fails |
| `BackupStream.Writer.Write` | backup.go:182-189 | refuses more than the header announced; otherwise passes the bytes on and counts them |
| `BackupStream.WriterSerializes` | backup.go:149-189 | in any chunking the output is the records one after the other |
| `BackupStream.SkippingAgrees` | backup.go:78-92 | skipping by seek and by discard agree exactly when the payload is all there |
| `BackupStream.Reader.Next` | backup.go:77-117 | skips the rest of the record and reports the next header, the end, or an error, for every stream |
| `BackupStream.Reader.Read` | backup.go:120-135 | the next bytes of the record and of no other, with any buffer and short reads |
| `BackupStream.Reader.Discard` | backup.go:89-91 | reading a record away succeeds exactly when it is all there |
| `BackupStream.NextFollows` | backup.go:77-117 | Next reports the next record or the end, whichever way it skips |
| `BackupStream.ReadFollows` | backup.go:120-135 | a read extends the current record's prefix |
| `BackupStream.WrittenIsRead` | backup.go:77-189 | records written in any chunking are reported by any run of Next and Read: same headers in order, of each payload a prefix, the end exactly after the last |
| `BackupStream.RecordsOfSerialize` | backup.go:77-189 | reading serialized records to the end gives the records |
| `BackupStream.NextOnCut` | backup.go:77-117 | a reader that cannot seek never takes a stream cut within a record for ended, and what remains stays cut |
| `Sparse.RenderMeans` | backuptar/tar.go:54-91 | the dense form is as long as the file, has each block at its offset and zeros everywhere else |
| `Sparse.MapAgrees` | backuptar/tar.go:54-91 | the sparse map read from bytes is the one of the stream's records |
| `Sparse.SparseReadBack` | backuptar/tar.go:54-91 | any ascending non-empty blocks, written with their terminator, are read back with the file size and what follows |
| `Sparse.CopyRecord` | backuptar/tar.go:81-87 | copies the rest of the record; succeeds exactly when it is all there and fits |
| `Sparse.CopyBlock` | backuptar/tar.go:57-88 | one block: zeros up to its offset, then its bytes; all error cases |
| `Sparse.CopySparse` | backuptar/tar.go:54-91 | succeeds exactly on a well-formed map that fits, and has then written its dense form |
| `BackupTar.FrontAgrees` | backuptar/tar.go:205-262 | the tar header collected from a file's records agrees with what the records say of descriptor and attributes |
| `BackupTar.HeaderFits` | backuptar/tar.go:241-255 | attributes that were decoded fit the encoding again |
| `BackupTar.ListsMap` | backuptar/tar.go:140-164 | the attributes in any order of iteration are the same map |
| `BackupTar.StreamNameRestored` | backuptar/tar.go:348-351 | trimming and restoring an alternate stream's name is the identity on `:x:$DATA` |
| `BackupTar.TailPreserved` | backuptar/tar.go:333-372 | alternate streams come back with the same names and contents, in order |
| `BackupTar.FrontPreserved` | backuptar/tar.go:414-469 | descriptor and attributes come back |
| `BackupTar.TarOfFile` | backuptar/tar.go:187-374 | the entries of such a file, the same whether the stream is read once or twice |
| `BackupTar.TranslationPreservesMeaning` | backuptar/tar.go:140-508 | backup stream to tar to backup stream keeps descriptor, attribute map, data and alternate streams |
| `BackupTar.LinkTranslationPreservesMeaning` | backuptar/tar.go:140-508 | a file with a reparse point and no data keeps descriptor, attributes and reparse point |
| `BackupTar.SparseFileBecomesDense` | backuptar/tar.go:311-328 | a sparse file, read once, becomes its dense form with its alternate streams behind it |
| `BackupTar.SparseFileRefusedTwice` | backuptar/tar.go:207-262 | read twice it is refused |
| `BackupTar.HeaderRefusals` | backuptar/tar.go:207-262 | the first pass refuses exactly unknown records and attributes that do not decode |
| `BackupTar.TailRefusals` | backuptar/tar.go:333-372 | after the data exactly sparse alternate streams and unknown records are refused |
| `BackupTar.TailEntriesAre` | backuptar/tar.go:342-366 | every alternate stream has its entry, in order, with its name, size and bytes |
| `BackupTar.TrimmedName` | backuptar/tar.go:348 | `:$DATA` is cut off the end of a name once |
| `BackupTar.RecordsInOrder` | backuptar/tar.go:414-508 | the records that come back, in order, with their numbers |
| `BackupTar.StreamRecordsAre` | backuptar/tar.go:494-503 | an alternate stream comes back as the rest of its name with `:$DATA` |
| `BackupTar.HeaderKnows` | backuptar/tar.go:191-262 | read once, the header knows the records before the data only; read twice, all |
| `BackupTar.NoDataNoStreams` | backuptar/tar.go:311-333 | without a data record there is one entry and alternate streams are lost |
| `TarTranslation.ReadAll` | backuptar/tar.go:222-245 | the whole payload of the record, in reads of any size; what there is of it and an error if it is cut; a panic on a negative size |
| `TarTranslation.StoreEas` | backuptar/tar.go:250-255 | the attributes are added to the header one by one, later ones replacing earlier |
| `TarTranslation.CollectHeader` | backuptar/tar.go:205-262 | the first pass collects the header that the records describe, or fails exactly when a record cannot be translated; a cut stream stays cut |
| `TarTranslation.FindData` | backuptar/tar.go:269-287 | the second pass stops in the data record |
| `TarTranslation.CopyContents` | backuptar/tar.go:311-328 | the body is the data, or the dense form of the sparse blocks after it; size mismatches and overlong data are refused; a cut stream stays cut |
| `TarTranslation.WriteStreams` | backuptar/tar.go:330-373 | one entry for each alternate stream after the data; every refusal; a cut stream fails |
| `TarTranslation.WriteTarFileFromBackupStream` | backuptar/tar.go:187-374 | on any stream of complete records: succeeds exactly when the file has a tar form, and then adds exactly that form to the archive; on a stream cut within a record it fails if the reader cannot seek |
| `BackupFromTar.ListEas` | backuptar/tar.go:140-153 | every attribute of the header exactly once, in any order |
| `BackupFromTar.CopyBody` | backuptar/tar.go:480-483 | the body in reads of any size becomes the payload; fails exactly when the archive lacks some of it or there is no room |
| `BackupFromTar.WriteFront` | backuptar/tar.go:414-469 | the records before the data; fails exactly when an attribute does not fit or there is no room |
| `BackupFromTar.PutStreams` | backuptar/tar.go:486-507 | one record for each alternate stream, up to the first entry that is none, which is returned; fails exactly when one of them is cut or there is no room |
| `BackupFromTar.WriteBackupStreamFromTarFile` | backuptar/tar.go:414-508 | writes exactly the serialized records of the file's entries and returns the next header or the end; fails exactly when the archive is cut within them, an attribute does not fit or there is no room |
| `BackupFromTar.ThereAndBack` | backuptar/tar.go:140-508 | byte by byte: the archive of a file, with other entries after it, becomes a stream whose records describe the same file |
| `ChunkedReader.SizesAddUp` | wim/decompress.go:83-92 | the chunks' uncompressed sizes add up to the resource's size |
| `ChunkedReader.ChunksNeeded` | wim/decompress.go:24 | as many chunks of 32768 bytes as the size takes |
| `ChunkedReader.FailsExactly` | wim/decompress.go:118-130 | sequential reading ends in an error exactly when some chunk fails |
| `ChunkedReader.SequentialSkips` | wim/decompress.go:94-130 | reading from a chunk on is reading all and dropping the chunks before |
| `ChunkedReader.ReadTable` | wim/decompress.go:24-49 | both widths of the table, and the errors of a short one |
| `ChunkedReader.CompressedReader.Reset` | wim/decompress.go:94-116 | the chunk at hand is the n-th, or end of file beyond the last |
| `ChunkedReader.CompressedReader.Read` | wim/decompress.go:118-130 | the next bytes of what is left, across chunks, for every buffer size; end or error exactly when nothing is left |
| `ChunkedReader.CompressedReader.ReadAll` | wim/decompress.go:118-130 | reading with any buffer sizes to the end yields everything that was left |
| `ChunkedReader.NewCompressedReader` | wim/decompress.go:23-70 | how opening ends for every section, size and offset, negative ones included, and what is then left to read |
| `ChunkedReader.OpenedAtOffset` | wim/decompress.go:23-130 | for whole chunks: opens exactly up to the end, and what is left is the resource without its first `offset` bytes |
| `ChunkedReader.ChunkFound` | wim/decompress.go:72-81 | in a resource laid out behind its table every chunk's bytes are found, with 32-bit and 64-bit tables |
| `ChunkedReader.TwoChunks` | wim/decompress.go:24-49 | the bytes of a resource of two chunks, with both tables |
| `ChunkedReader.LaidOutIsRead` | wim/decompress.go:23-130 | contents cut into chunks, each stored or compressed, and laid out, read back from every offset, for any chunk decompressor |
| `WimChunks.ReadLzxChunk` | wim/decompress.go:101-113 | a compressed chunk through the decompressor is what the format makes of it, where nothing is missed |
| `WimChunks.LzxResourceIsRead` | wim/decompress.go:23-130 | the same for chunks that the LZX format decompresses to the contents |

## Left out

- LzxBlocks.Uncompress: for readers that return less than the buffer holds, and for longer inputs with uncompressed blocks, an error is justified up to missed reads: the format describes no chunk, or one that leaves less than 96 bits of input. The source does miss reads there (`LzxExamples.SplitWordMissed`).
- LzxTrees.ReadRun: an error may also be due to a read that missed what is there; the ghost flag `lost` says so, and it stays false for the readers above.
- LzxTrees.ReadRuns: the same.
- LzxTrees.ReadTree: the same.
- LzxTrees.ReadTrees: the same.
- LzxBlocks.ReadToken: the same.
- LzxBlocks.ReadCompressedBlock: the same; what it leaves in the window on an error is not stated.
- LzxBlocks.ReadBlockHeader: the same.
- LzxBlocks.ReadBlock: the same.
- LzxBlocks.DecodeAll: the same.
- LzxReader.Decompressor.GetBits: values returned after a failure are not stated, because the register then holds no input.
- Reading again from an LZX or chunked reader after it reported an error is not modelled.
- FileClose.CloseReturns: assumes that the kernel completes an operation whose cancellation was requested; what an operation transfers is not modelled.
- `Flush`, `Fd`, `Disconnect` and socket shutdown use the handle outside the wait group and are not modelled.
- PipeListener.WaitingCloseReturns: assumes that the connect goroutine of a closed pipe returns.
- PipeListener.WaitingCloseMovesOn: says that some step is possible; `PipeListener.WaitingCloseReturns` says what the steps lead to.
- MessagePipe.MessageBytePipe.Read: ERROR_MORE_DATA is modelled as a short read; disconnection is left out. The run theorems are for non-empty buffers.
- BackupStream.WrittenIsRead: conversion of names between UTF-16 and Go strings is an inverse pair outside the model.
- TarTranslation.WriteTarFileFromBackupStream: of streams that announce a negative size, and of cut streams on a reader that can seek, only termination is stated.
- TarTranslation.CollectHeader: the header is stated for streams of complete records only.
- TarTranslation.FindData: the outcome is stated for streams of complete records only.
- TarTranslation.CopyContents: the body is stated for streams of complete records only.
- TarTranslation.WriteStreams: the entries are stated for streams of complete records only.
- BackupFromTar.WriteBackupStreamFromTarFile: lengths are below 2^63, and the header is the reader's current one.
- Base64, the reparse-point layout, the pax encoding and the tar container itself are inverse pairs or sequences; the legacy SDDL descriptor record is left out.
- Times and attributes of the basic file information pass through the translation unseen; only their decimal form is modelled (`PaxTime`).
- WimChunks.ReadLzxChunk: agreement is not stated for chunks with empty blocks, or longer than 4096 bytes with uncompressed blocks.
- The rest of package wim (headers, directory entries, XML, hashing) is record parsing without such invariants.
- Named-pipe dialing, hvsock, vhd, security, privilege, process, bindfilter, computestorage and the generated bindings are thin wrappers over Windows calls.
- `pkg/guid`, `internal/stringbuffer`, `reparse.go`, `pkg/etw`, `pkg/etwlogrus` and `tools/mkwinsyscall` would only add easy members or have no partner to be proved against.
