# A verified model of the qboot boot loader

qboot receives firmware packages into a DOWNLOAD partition, checks them, decrypts and decodes them
into the application partition, verifies the result and signs the package as released. This project
models the parts of it that decide whether a device ends up with the right image, and proves what
they promise.

* `Bits`, `Storage`: 32-bit words and the alignment macros, NOR-flash partitions behind one range check
  (an erase sets whole sectors to 0xFF, a write ANDs), and a log of every operation.
* `Crc`, `CrcTheory`, `CrcCheck`, `Detection`: the CRC-32 of section 8 of RFC 1952, why it detects every
  change inside a window of four bytes, its check value by evaluation in machine words, and which changes
  of a package or of an image the checks of the boot loader notice.
* `PatchSpec`, `PatchRuns`, `Hpatch`, `DeltaPackage`: the in-place differential commit engine. The patch
  library is a function from all answers so far to its next callback, so its writes may depend on
  everything it has read. The main results are that an in-place run refines a run against an untouched
  copy of the old image, that runs succeed exactly along right answers, and that the tool's differential
  package becomes the new application.
* `StreamSpec`, `StreamProof`, `Stream`: the two nested streaming loops, as functions and as methods
  over shared arrays, and the theorem that streaming is one-shot decoding for every codec that meets
  the step contract. `Codecs`, `StoredLiveness`, `FramedLiveness`, `InputBuffer`, `Gzip`, `GzipProof`,
  `GzipAdapter`, `PassesAgree`, `SharedBuffer` and `Ciphers` discharge that contract for the stored,
  block-framed and gzip formats and for CBC decryption, and say when passes complete, agree, or fail.
  `GzipBuffer`, `GzipOverrun` and `FramedOverrun` say for which sizes a pass can write past its input
  buffer, and `GzipCompletion` and `GzipOneRead` when a well-formed gzip package gets through.
* `FwInfo`, `PackageTool`, `ReleaseSpec`, `ReleaseProof`, `Boot`: the package header with its reader and
  printer, the packaging tool's command, the release protocol as functions over operation logs, and the
  boot loader's methods proved equal to them. `Restart` and `PowerCut` cut the protocol anywhere, even
  inside an operation; `EndToEnd` follows a package from the packaging tool to the application
  partition. `Resume` is the restore of the application, and `Factory` says that it is always a way back.
* `Update`, `Lives`, `ReasonText`: the update manager as a state machine over events with its poll loop,
  what it keeps across resets, and the number parser of its shell command.

Methods carry the source's own state (fields, static buffers, loops) and are proved against the
functions; the theorems are lemmas about the functions. Third-party code (zlib inflate, FastLZ,
QuickLZ, the AES block cipher, `hpi_patch`) is abstract: any function, with the promise it must keep
stated where it is used.

## Where the code differs from what is said about it

* With the default gzip buffer of one read, a package can make the next read end behind the input
  buffer: a small member with other bytes behind it does (`GzipOverrun.TrailingBytesOverrun`). The
  header decides: no package overruns outside the sizes of `GzipBuffer.Risky`
  (`GzipBuffer.SafeSizes`), for all of these an overrun exists (`GzipOverrun.RiskySizesOverrun`), and
  for a buffer of one read they are spelled out in `GzipBuffer.OneReadRisk`. A package that fits the
  buffer is safe, and so is a buffer of two reads (`GzipBuffer.SmallPackagesFit`,
  `GzipBuffer.GzipNeverOverruns`).
* A well-formed gzip package can fail. It gets through if and only if its image is empty, or the last
  call of the inflater gives out at least 32 bytes, and a multiple of 32 unless it had the whole body
  (`GzipCompletion.GzipCompletes`). For a body of one read and an inflater that always takes something
  this means that the image size modulo 4096 is 0 or at least 32 (`GzipOneRead.OneReadCompletes`), so an
  image of 4097 to 4127 bytes fails (`GzipOneRead.OneReadFails`). Packages that compress are among these
  (`GzipOneRead.CompressedPass`). Images shorter than 32 bytes never get through
  (`GzipProof.ShortImagesNeverComplete`).
* The frame formats sum a frame's announced length and its header in 32 bits. For lengths from 2^32 - 4 on
  the check for a whole frame lets any input through: the decoder is handed a block that runs past the
  pending input (`Codecs.BlockInside`, `Codecs.HeaderWraps`), and 0 to 3 bytes count as taken. A buffer of
  exactly two reads can then be overrun (`FramedOverrun.SplitHeaderOverruns`); two bytes more are enough
  (`InputBuffer.FramedNeverOverruns`), and the builds with a frame format have 32.
* A download can be given up early. The poll loop compares a reading taken before the state it compares it
  with, so a data event in between makes the difference wrap: at once, with a window of 30 seconds
  (`Update.DataInTheMiddle`), and in general exactly when the reading of the round is older than that of
  the last activity (`Update.GivenUpEarly`). With readings in order only true idle time counts
  (`Update.IdleTimeoutInOrder`).
* Without compression the three buffers are one array. A pass then succeeds exactly when body and
  image have the same size, or the image is shorter and ends where a read ends
  (`SharedBuffer.SharedExact`).
* The documentation of `qbt_hpatchlite_release_from_part` promises 0 for success; the code returns
  true, and its caller expects that. The model follows the code.
* A comment on the request event says that the manager never sticks at the REQ reason; the code
  stores exactly that reason. The model follows the code.
* `RT_ENOSPC` and `ENOSPC` are used for the same thing in the stream code; the model has one code.

## Model

| member | source | states |
|---|---|---|
| `Bits.RtAlignExact` | algorithm/qboot_hpatchlite.c:400-401 | the masked 32-bit alignment macros are true rounding when the size is a power of two and nothing wraps |
| `Storage.RangeOk` | src/qboot_custom_ops.c:97-112 | the subtraction-first range check accepts exactly the ranges inside a nonempty region |
| `Storage.Store.Read` | src/qboot_custom_ops.c:158-166 | a read succeeds exactly in range and returns those bytes |
| `Storage.Store.Write` | src/qboot_custom_ops.c:197-205 | a write succeeds exactly in range and ANDs into what is there; otherwise nothing changes |
| `Storage.Store.EraseWithFeed` | src/qboot_ops.c:429-435 | an erase succeeds exactly in range and sets every touched sector to 0xFF |
| `Storage.ProgrammedBits` | src/qboot_custom_ops.c:197-205 | bit by bit, a write clears exactly what the data has clear and leaves the rest of the region alone |
| `Storage.ErasedByte` | src/qboot_ops.c:429-435 | an erase sets a byte exactly when it lies in a sector that the range touches |
| `PatchSpec.CommittedWholeBuffers` | algorithm/qboot_hpatchlite.c:475-507 | after W bytes in any chunking exactly C*(W/C) are committed and W mod C are buffered |
| `PatchSpec.ReadAboveWatermark` | algorithm/qboot_hpatchlite.c:134-143 | an old read at or above the erase watermark returns original bytes |
| `PatchSpec.WatermarkExact` | algorithm/qboot_hpatchlite.c:392-465 | an offset is safe to read for all images and data if and only if it is at or above the watermark |
| `PatchSpec.InPlaceRefinesOutOfPlace` | algorithm/qboot_hpatchlite.c:392-522 | for every callback sequence that reads ahead of the watermark, the in-place run and the run against an untouched copy succeed together with the same new bytes, unless the image outgrows the partition |
| `PatchSpec.DifferentialUpdate` | algorithm/qboot_hpatchlite.c:540-641 | such an update succeeds exactly when the out-of-place run yields an image of the announced length that fits, and then yields it |
| `PatchSpec.CommitJoint` | algorithm/qboot_hpatchlite.c:430-465 | a commit keeps the joint invariant of partition bytes, swap bytes, erase watermark and counters |
| `PatchSpec.FinalImage` | algorithm/qboot_hpatchlite.c:607-618 | the final tail erase leaves the new image followed by 0xFF up to the partition end |
| `PatchSpec.JointLeaves` | algorithm/qboot_hpatchlite.c:430-465 | an update that stops between commits leaves committed bytes, erased cells up to a sector boundary, and the original from there on |
| `PatchSpec.RunSpanTiles` | algorithm/qboot_hpatchlite.c:392-465 | the running erase and program marks of a log are those of its operation list |
| `PatchSpec.ProgramsErasedBytes` | algorithm/qboot_hpatchlite.c:430-465 | in every run of the engine, finished or not, every programmed byte was erased before |
| `PatchSpec.Discipline` | algorithm/qboot_hpatchlite.c:392-465 | in every run of the engine, finished or not, no byte is erased twice, programmed twice, or erased after it was programmed |
| `PatchRuns.ServeRight` | algorithm/qboot_hpatchlite.c:91-143 | a callback is answered with the old bytes asked for or with the next bytes of the patch file up to its length, and fails only when there are none |
| `PatchRuns.PatchInOrder` | algorithm/qboot_hpatchlite.c:115-121 | along every run, finished or not, the pieces of the patch file given out make up its front without gap or overlap, as much of it as was asked for |
| `PatchRuns.OutOfPlaceMeans` | algorithm/qboot_hpatchlite.c:590-590 | the out-of-place run yields an image exactly when the library hands it over in a run with right answers only |
| `PatchRuns.InPlaceMeans` | algorithm/qboot_hpatchlite.c:590-590 | so does the in-place run, with the partition as it reads at each moment, when whole buffers of the image fit |
| `PatchRuns.PatchDelivered` | algorithm/qboot_hpatchlite.c:91-123 | requests that total the length of the patch file or more, in any pieces, give all of it |
| `PatchRuns.ReadsAheadMeans` | algorithm/qboot_hpatchlite.c:134-143 | the condition of the refinement: in every run with right answers, old reads lie at or above the watermark of what was handed over |
| `Hpatch.Patcher.InitSwap` | algorithm/qboot_hpatchlite.c:156-185 | succeeds exactly when the offset lies in the swap area, with the rest of the area as capacity |
| `Hpatch.Patcher.Append` | algorithm/qboot_hpatchlite.c:325-330 | both backends append to the same abstract buffer and touch nothing else |
| `Hpatch.Patcher.AppendStorage` | algorithm/qboot_hpatchlite.c:240-248 | bytes programmed into the erased swap area read back as appended |
| `Hpatch.Patcher.Reset` | algorithm/qboot_hpatchlite.c:256-264 | empties the buffer and makes the swap area writable again |
| `Hpatch.Patcher.CopyRamToOld` | algorithm/qboot_hpatchlite.c:312-315 | programs the RAM buffer behind the committed bytes |
| `Hpatch.Patcher.CopyStorageToOld` | algorithm/qboot_hpatchlite.c:205-230 | the chunked copy through RAM has the effect of one write of the swap contents |
| `Hpatch.Patcher.EraseAlignedRange` | algorithm/qboot_hpatchlite.c:392-422 | erases exactly the whole sectors of the range above the watermark and moves the watermark there |
| `Hpatch.Patcher.EraseForCommit` | algorithm/qboot_hpatchlite.c:444-447 | succeeds exactly when the new bytes fit, with the watermark at the rounded-up commit end |
| `Hpatch.Patcher.SwapCommit` | algorithm/qboot_hpatchlite.c:430-465 | commits all buffered bytes and keeps the joint invariant, or fails because the image outgrows the partition |
| `Hpatch.Patcher.DoReadOld` | algorithm/qboot_hpatchlite.c:134-143 | returns the partition bytes of the range, or fails out of range |
| `Hpatch.Patcher.DoReadPatch` | algorithm/qboot_hpatchlite.c:91-123 | returns the next piece of the patch file clipped to its length and advances by it |
| `Hpatch.Patcher.DoWriteNew` | algorithm/qboot_hpatchlite.c:475-507 | the write loop ends, appends all data to the stream, commits every full buffer, and fails exactly when a commit outgrows the partition |
| `Hpatch.Patcher.ServeCall` | algorithm/qboot_hpatchlite.c:91-522 | each callback answers as the abstract in-place run does and keeps the joint invariant |
| `Hpatch.Patcher.HpiPatch` | algorithm/qboot_hpatchlite.c:590-590 | a run of the library over the callbacks is the abstract in-place run |
| `Hpatch.Patcher.EraseTail` | algorithm/qboot_hpatchlite.c:607-618 | the final erase takes whole sectors above the watermark only, and nothing below the announced length |
| `Hpatch.Patcher.FinishUpdate` | algorithm/qboot_hpatchlite.c:607-635 | succeeds exactly when the stream length is the announced one, and then the partition is the new image and 0xFF; otherwise it is new bytes, erased cells, and what is left of the original between them |
| `Hpatch.ReleaseFromPart` | algorithm/qboot_hpatchlite.c:540-641 | succeeds exactly when the abstract update yields an image, and the partition is then that image and 0xFF; whether it succeeds or not, the flash discipline was kept, the package is untouched, and the partition holds new bytes, erased cells and original bytes in their places |
| `Crc.CycCalConcat` | src/qboot.c:119-119 | a CRC taken piece by piece is the CRC of the whole |
| `CrcTheory.UpdateDivides` | src/qboot.c:119-119 | the table look-up of a byte is eight steps of the bitwise division |
| `CrcCheck.CheckValue` | tools/package_tool.py:30-31 | the CRC of `123456789` is 0xCBF43926, by evaluation in 32-bit machine words proved to compute the same |
| `CrcTheory.BurstDetected` | src/qboot.c:101-131 | buffers of one length that differ only inside a window of four bytes have different CRCs |
| `CrcTheory.ChangeDetected` | src/qboot.c:101-131 | so do buffers that differ in one byte |
| `Detection.HeaderAccepted` | src/qboot.c:80-88 | header bytes are accepted exactly when they start with the magic word and end with the CRC of what lies before |
| `Detection.HeaderChange` | src/qboot.c:80-88 | no accepted header stays accepted with one byte changed |
| `Detection.CheckedMeans` | src/qboot.c:332-377 | an accepted package has its header in front and a body inside the partition with the announced CRC |
| `Detection.CheckRejectsChange` | src/qboot.c:332-377 | an accepted package is rejected with any one byte of its header or body changed |
| `Detection.VerifiedMeans` | src/qboot.c:292-320 | verification succeeds exactly when a sound header lies at the tail and, if it asks for it, the first raw_size bytes lie in the partition and have the announced CRC |
| `Detection.VerifiedRejectsChange` | src/qboot.c:292-320 | a verified partition no longer verifies with one byte of its tail header changed, nor, if the header asks for the check, with one byte of its image changed |
| `StreamProof.StreamingRefinesOneShot` | src/qboot_stream.c:73-224 | for every chunking and every codec meeting the step contract, a pass never overruns its buffer, delivers a prefix of the one-shot decoded text, and on success exactly its first raw_size bytes |
| `StreamProof.AdvanceMeets` | inc/qboot_stream.h:43-48 | one step of a codec that meets the contract hands on the next text bytes and keeps the codec's position |
| `StreamProof.InnerMeets` | src/qboot_stream.c:73-144 | the inner loop ends with a prefix of the text handed on and the rest of the body slice pending |
| `StreamProof.HungryMoves` | src/qboot_stream.c:163-221 | if a round makes progress, it consumes the whole residue of the round before |
| `StreamProof.CipherNext` | src/qboot_stream.c:33-48 | decrypting the next piece read gives the next piece of the whole decrypted body |
| `StreamProof.FetchNext` | src/qboot_stream.c:166-195 | a read from a covered state fits the buffer, stays inside the package and yields the next body piece |
| `Stream.Consume` | src/qboot_stream.c:236-280 | a chunk is folded into the CRC or written behind the previous one, at contiguous offsets |
| `Stream.DecompressWithConsumer` | src/qboot_stream.c:73-144 | the loop over the compacting buffer ends and computes the abstract inner loop |
| `Stream.FwPkgRead` | src/qboot_stream.c:33-48 | reads and decrypts behind the pending input without disturbing it |
| `Stream.ReadMore` | src/qboot_stream.c:166-195 | the 32-bit remaining-length arithmetic gives the abstract read |
| `Stream.FwStreamProcess` | src/qboot_stream.c:153-224 | the process ends and computes the abstract pass: result, writes in the log, and CRC; the output buffer may be the cipher scratch |
| `Codecs.NoneDecompress` | algorithm/qboot_none.c:31-58 | copies the input that fits, or asks for more |
| `Codecs.NoneMeets` | algorithm/qboot_none.c:31-58 | the stored format meets the step contract with the body as its text |
| `Codecs.GetBlockSize` | algorithm/qboot_fastlz.c:39-48 | the shift loop reads the 4-byte big-endian length |
| `Codecs.FramedDecompress` | algorithm/qboot_fastlz.c:77-117 | decodes one frame into the output buffer, asks for more, or fails, as the abstract step does, with the sum of lengths in 32 bits |
| `Codecs.BlockInside` | algorithm/qboot_fastlz.c:91-102 | the block handed to the decoder lies in the pending input if and only if header and announced length sum up below 2^32 |
| `Codecs.HeaderWraps` | algorithm/qboot_quicklz.c:90-102 | a four-byte header at which a block of almost 2^32 bytes is decoded from any input and one byte counts as taken |
| `Codecs.FramedMeets` | algorithm/qboot_quicklz.c:79-118 | a framed format meets the step contract for every body whose lengths do not wrap, given a buffer of two reads |
| `StoredLiveness.StoredCompletes` | algorithm/qboot_none.c:31-58 | a stored package that holds the whole image always completes and delivers it |
| `FramedLiveness.FrameAdvances` | src/qboot_stream.c:83-139 | at a frame boundary a whole frame goes through, and a partial one shorter than a read waits |
| `FramedLiveness.FramingRoundTrip` | algorithm/qboot_fastlz.c:39-48 | blocks framed with big-endian lengths are well-formed frames and stand for what the blocks unpack to |
| `FramedLiveness.FramedCompletes` | src/qboot_stream.c:163-221 | a package of frames that each fit one read and decode to legal blocks totalling raw_size always completes with all of them |
| `InputBuffer.StoredNeverOverruns` | src/qboot_stream.c:175-184 | a stored package, even a corrupt one, never overruns the input buffer |
| `InputBuffer.FramedNeverOverruns` | inc/qboot_cfg.h:54-61 | a framed package, even a corrupt one, never overruns a buffer of two reads and two bytes |
| `FramedOverrun.SplitHeaderOverruns` | src/qboot_stream.c:175-184 | for every read size from 8 bytes on, a smaller buffer is overrun by a package whose split header announces a length that wraps |
| `Gzip.StepConserves` | algorithm/qboot_gzip.c:127-185 | in one call held-back and inflated bytes come out or are held back in order, with fewer than 32 padding bytes behind a last chunk being written |
| `Gzip.PadExact` | algorithm/qboot_gzip.c:163-181 | the last chunk of a write is padded to a whole number of 32 bytes exactly when that fits |
| `Gzip.RunConserves` | algorithm/qboot_gzip.c:109-203 | over any run of calls that do not fail, emitted bytes and saved remainder are all inflated bytes in order, apart from the padding of the last call |
| `GzipProof.RemainderFits` | algorithm/qboot_gzip.c:121-125 | inside a pass the remainder fits the next output budget, so the guard never fires |
| `GzipProof.CallInPass` | algorithm/qboot_gzip.c:127-182 | inside a pass a call has the next text bytes in hand, and never anything to pad |
| `GzipProof.GzipMeets` | algorithm/qboot_gzip.c:109-203 | over a greedy inflater the adapter meets the step contract |
| `GzipProof.ShortImagesNeverComplete` | algorithm/qboot_gzip.c:191-195 | an image shorter than 32 bytes never gets through, whatever its package |
| `GzipBuffer.InnerBounds` | src/qboot_stream.c:82-139 | whatever the inflater does, the inner loop leaves input only when all the rest of the image is held back |
| `GzipBuffer.OverrunShape` | src/qboot_stream.c:166-190 | every overrun of a gzip pass comes of a read behind input that is stuck like that |
| `GzipBuffer.SafeSizes` | src/qboot_stream.c:175-184 | for every inflater that keeps inside its buffers and every body, however corrupt, a gzip pass does not overrun unless the sizes in the header are risky |
| `GzipBuffer.GzipNeverOverruns` | inc/qboot_cfg.h:54-61 | with a buffer of two reads less one byte no gzip pass overruns |
| `GzipBuffer.SmallPackagesFit` | src/qboot_stream.c:175-184 | nor does one over a package at most one byte larger than the buffer |
| `GzipBuffer.OneReadRisk` | inc/qboot_cfg.h:58-61 | for a buffer of one read, as in the default gzip build, the risky sizes in closed form |
| `GzipOverrun.TrailingBytesOverrun` | algorithm/qboot_gzip.c:183-189 | in the default gzip build a package of 8192 bytes that is a small member and anything behind it overruns the input buffer |
| `GzipOverrun.RiskySizesOverrun` | src/qboot_stream.c:175-184 | for all risky sizes and every body there is an inflater keeping inside its buffers with which the pass overruns |
| `GzipCompletion.CleanInner` | algorithm/qboot_gzip.c:156-198 | after what has been read, the inner loop has failed, completed or gone on exactly as the calls of the inflater alone tell |
| `GzipCompletion.Sticks` | algorithm/qboot_gzip.c:186-195 | when the whole rest is held back and input follows, no call gets on |
| `GzipCompletion.GzipCompletes` | algorithm/qboot_gzip.c:109-203 | a well-formed gzip package gets through if and only if its image is empty or the last call of the inflater gives out at least 32 bytes, and a multiple of 32 unless it had the whole body |
| `GzipOneRead.OneReadCompletes` | algorithm/qboot_gzip.c:156-198 | with the body in one read and an inflater that takes something whenever it has the room the loop gives it, exactly when the image size modulo 4096 is 0 or at least 32 |
| `GzipOneRead.OneReadFails` | algorithm/qboot_gzip.c:191-195 | such a package with an image of 4097 to 4127 bytes fails |
| `GzipOneRead.CompressedPass` | algorithm/qboot_gzip.c:156-198 | for every text and every body down to a 4096th of its length there is an inflater with which a pass over them is one of these, and ends accordingly |
| `GzipAdapter.Adapter.Fill` | algorithm/qboot_gzip.c:127-153 | the output buffer holds the saved bytes and then the inflated ones |
| `GzipAdapter.Adapter.Save` | algorithm/qboot_gzip.c:159-162 | the remainder buffer holds the bytes behind the last multiple of 32 |
| `GzipAdapter.Adapter.Finish` | algorithm/qboot_gzip.c:165-181 | the tail is flushed, padded with 0xFF to a multiple of 32 when asked and when it fits |
| `GzipAdapter.Adapter.Decompress` | algorithm/qboot_gzip.c:109-203 | the handler over its 32-byte remainder buffer computes the abstract step |
| `PassesAgree.SamePass` | src/qboot.c:143-193 | a CRC pass and a write pass whose codec answers alike are the same run, chunk by chunk |
| `PassesAgree.GzipPassesAgree` | algorithm/qboot_gzip.c:163-181 | over one gzip member of the announced length the write pass delivers what the CRC pass checked, and that is the text |
| `SharedBuffer.SharedExact` | algorithm/qboot_none.c:46-57 | with one array for all buffers, under any chaining cipher, a pass succeeds exactly when the sizes are equal or the image ends where a read ends, and delivers the plain body |
| `SharedBuffer.SharedNeverOverruns` | src/qboot.c:65-72 | whatever the source holds, the one array is not overrun |
| `SharedBuffer.FwStreamShared` | src/qboot_stream.c:153-224 | over the one array the process computes the pass of this build, error ends included |
| `Ciphers.PlainChains` | algorithm/qboot_none.c:76-82 | the NONE cipher keeps lengths and chains |
| `Ciphers.CbcEquations` | algorithm/qboot_aes.c:55-58 | decryption satisfies the CBC equations of section 6.2 of NIST SP 800-38A: a bit of the plain text is set exactly when the deciphered block and the cipher block before it, or the IV, differ in it |
| `Ciphers.CbcIsChaining` | algorithm/qboot_aes.c:55-58 | with a carried chaining value, decrypting in pieces of whole blocks is decrypting in one call |
| `Ciphers.PiecesAreWhole` | src/qboot_stream.c:166-185 | any cutting of a body into whole blocks decrypts to the same plain text |
| `Ciphers.CbcRoundTrip` | algorithm/qboot_aes.c:55-58 | decryption undoes CBC encryption under a matching block cipher |
| `Ciphers.IvOfText` | algorithm/qboot_aes.c:33-42 | a text of 16 bytes is the chaining value, a longer one is cut, a shorter one zero-filled |
| `Ciphers.Aes.DecryptInit` | algorithm/qboot_aes.c:33-42 | the chaining value starts as the configured text cut or zero-filled to 16 bytes, whatever passes went before |
| `Ciphers.Aes.Decrypt` | algorithm/qboot_aes.c:55-58 | a call decrypts its piece and leaves the chaining value for the next |
| `FwInfo.LeDigits` | tools/package_tool.py:37-53 | numbers of two and four bytes, low byte first |
| `FwInfo.Layout` | inc/qboot_ops.h:47-61 | the offset and width of every header field |
| `FwInfo.DecodeEncode` | inc/qboot_ops.h:47-61 | a header written to storage is read back |
| `FwInfo.EncodeDecode` | src/qboot_ops.c:198-231 | a header that was read is written back byte for byte |
| `FwInfo.HeaderRoundTrip` | tools/package_tool.py:33-54 | the reader gets back every field the tool printed and accepts magic and header CRC |
| `FwInfo.NameSurvives` | tools/package_tool.py:42-42 | a role matches the printed name exactly when it is the name given; a longer name matches nothing |
| `PackageTool.ParsesName` | tools/package_tool.py:56-71 | an option value is a table name up to case and white space around it |
| `PackageTool.NamesMean` | tools/package_tool.py:86-106 | the names, with the values that the boot loader gives them |
| `PackageTool.SelectsWhatWasAsked` | tools/package_tool.py:56-125 | the command fails exactly on an unknown algorithm name; otherwise the boot loader reads back cipher, compression and verification as asked, none for a differential package, and finds the body behind the header |
| `EndToEnd.TargetNamed` | src/qboot_ops.c:299-309 | a part name selects a target exactly under the name of its role, the swap role only in builds that have it |
| `ReleaseProof.PassTotal` | src/qboot_stream.c:82-139 | whatever the codec does, a pass puts out at most raw_size bytes, and exactly that many on success |
| `ReleaseProof.LogEffect` | src/qboot.c:239-278 | the operations of a release leave the image at the front and the header at the tail of wiped cells |
| `ReleaseProof.ReleaseContents` | src/qboot.c:208-281 | a successful release leaves the delivered image, its header at the tail, and every other partition as it was |
| `ReleaseProof.ReadBack` | src/qboot.c:292-320 | the header that verification reads into the global header is the header of the package |
| `ReleaseProof.UpdateMeans` | src/qboot.c:391-421 | after a successful update the destination has the header of the package at its tail and, if it asks for it, an image with the announced CRC in front |
| `ReleaseProof.SignPlace` | src/qboot_custom_ops.c:261-261 | the sign lies at the least multiple of 8 behind the package and never touches it |
| `Restart.CutThenReplay` | src/qboot.c:238-274 | any log of erases and programs, cut anywhere even inside an operation, comes to the same contents when replayed from the start |
| `Restart.TornBits` | src/qboot_custom_ops.c:197-205 | a byte whose programming was cut off keeps the bits that the data has set and may have any value in the others |
| `Restart.CutAnywhere` | src/qboot.c:238-274 | a cut may leave the contents after any front of a log, and anything that an operation of it that was cut off can leave |
| `PowerCut.SameSource` | src/qboot_stream.c:153-224 | a pass does not depend on anything behind the package |
| `PowerCut.RunForm` | src/qboot.c:802-870 | from an unsigned source the protocol is the update and then, if it succeeded, the sign at the same place |
| `PowerCut.TornSign` | src/qboot_custom_ops.c:280-290 | a cut-off sign write leaves the package alone, and a sign that reads as set is fully written |
| `PowerCut.CutSurvives` | src/qboot.c:802-870 | a cut run keeps the package and the outcome of a later run, and sets the sign only when everything is done |
| `PowerCut.PowerCutRestart` | src/qboot.c:802-870 | after any number of cut runs a complete run leaves every partition as one uninterrupted run would |
| `PowerCut.SignMeansVerified` | src/qboot.c:802-870 | at every moment of every such history a new sign means a complete release whose destination passed verification: the header of the package at its tail and, if it asks for it, an image with the announced CRC in front |
| `EndToEnd.HeldChecks` | src/qboot.c:332-377 | the tool's package passes header, body and application checks, in builds that copy bodies and in the build with one array |
| `EndToEnd.DeliveredImage` | src/qboot.c:208-320 | for any codec: a checked package whose write pass delivers the announced image is released, with that image in the target, verified |
| `EndToEnd.CheckedDecodes` | src/qboot.c:357-372 | an accepted package that asks for the application check decodes to an image of the announced size and CRC |
| `EndToEnd.GzipAppCheck` | src/qboot.c:143-193 | the application check of a well-formed gzip package succeeds exactly when its text has the announced CRC and the package is one that gets through |
| `EndToEnd.CheckedGzipIsReleased` | src/qboot.c:357-372 | a gzip package that passed the application check is released, and the target holds the text of its gzip member |
| `EndToEnd.FramedIsReleased` | src/qboot_stream.c:163-221 | a checked package of well-formed frames is released, and the target holds its raw blocks |
| `EndToEnd.ToolToTarget` | src/qboot.c:208-320 | releasing the tool's package leaves the image at the front of its target, the same header at the tail, and nothing else changed |
| `EndToEnd.SignedBoot` | src/qboot.c:859-869 | after a verified update the run signs erased cells behind the package and changes nothing else of the source |
| `EndToEnd.ToolToBoot` | src/qboot.c:802-870 | the whole run over a fresh package reports success, leaves the image in its target and signs the source |
| `EndToEnd.HoldsEncrypted` | algorithm/qboot_aes.c:55-58 | a package encrypted in CBC mode with the device key is one the boot loader deciphers to the image |
| `EndToEnd.PlainPackageBoots` | tools/package_tool.py:100-127 | for every image, the uncompressed unencrypted application package checks, and boots into the application partition, in builds that copy bodies and in the build with one array |
| `Resume.RestoresApp` | src/qboot.c:736-793 | restoring from a checked package that delivers its image succeeds exactly when it is named for the application; then image and header are in place and verified, and every other partition is as it was, otherwise nothing changes |
| `Resume.ToolRestoresApp` | src/qboot.c:907-943 | the tool's package restores the application exactly when it was made for it |
| `Resume.SignIgnored` | src/qboot.c:831-848 | without the look at the sign a signed package is released again and not signed again, and an unsigned one as with it |
| `Resume.ReleasedAgain` | src/qboot.c:1241-1241 | a signed package released again leaves image and header in its target and its source as it was |
| `Resume.ReleasesNothing` | src/qboot.c:802-870 | nothing is released from a partition that fails the check or names no partition, and a signed package is left alone |
| `Factory.HistoryKeepsOther` | src/qboot.c:802-870 | any number of cut runs leaves a third partition as it was |
| `Factory.FactoryRestores` | src/qboot.c:927-943 | however often the release of a package has been cut off, a sound application package in a third partition then restores the application |
| `DeltaPackage.PatchChecks` | src/qboot.c:357-372 | the tool's differential package passes the package check without a look at the image |
| `DeltaPackage.PatchFile` | src/qboot.c:228-228 | the patch file handed to the library is the patch given to the tool, behind the header and in its full length |
| `DeltaPackage.DeltaExactly` | algorithm/qboot_hpatchlite.c:540-641 | the update yields exactly an image of the announced length that fits and that the library hands over in a run with right answers |
| `DeltaPackage.PatchReaches` | algorithm/qboot_hpatchlite.c:91-123 | in such a run the pieces make up the tool's patch, all of it when that much or more is asked for |
| `DeltaPackage.DeltaBoots` | src/qboot.c:802-870 | then the protocol leaves that image, erased cells and the header of the package in the application partition, verified |
| `DeltaPackage.DeltaDelivers` | src/qboot.c:802-870 | the device gets the image that the patch yields against an untouched copy of the old application, when the library reads ahead |
| `DeltaPackage.DeltaRests` | src/qboot.c:831-848 | a differential package released before is left alone, and one that fails its check or names no partition is not released |
| `Boot.StoredPackagesAreSafe` | algorithm/qboot_none.c:31-58 | a package whose header selects the stored format meets the buffer precondition, whatever else the build registers |
| `Boot.FramedPackagesAreSafe` | inc/qboot_cfg.h:54-61 | so does one that selects a framed format, even a corrupt one, with a buffer of two reads and two bytes |
| `Boot.GzipPackagesAreSafe` | algorithm/qboot_gzip.c:109-203 | so does one that selects gzip and announces sizes that are not risky |
| `Boot.OneArrayBuildsAreSafe` | src/qboot.c:65-72 | in the build without compression every source meets it |
| `Boot.FramedBuildsAreSafe` | src/qboot_algo.c:253-280 | in a build with a framed format beside the stored one and a buffer of two reads and two bytes every source meets it |
| `Boot.GzipBuildsAreSafe` | src/qboot_algo.c:253-280 | in a build with gzip beside the stored format every source meets it with a buffer of two reads, and otherwise every source whose header announces sizes that are not risky |
| `Boot.Loader.FwInfoRead` | src/qboot_ops.c:198-211 | the header at the front or tail, exactly when the partition is large enough |
| `Boot.Loader.FwCrcCheck` | src/qboot.c:101-131 | the chunked loop accepts exactly a range inside the partition with the announced CRC |
| `Boot.Loader.Stream` | src/qboot_stream.c:153-224 | over the buffers of the build, one array or two, the process computes the abstract pass |
| `Boot.Loader.AppCrcCheck` | src/qboot.c:143-193 | accepts exactly when the decoded package has the announced CRC; storage is unchanged |
| `Boot.Loader.FwCheck` | src/qboot.c:332-377 | accepts exactly a valid header, body and application, and loads the header |
| `Boot.Loader.FwRelease` | src/qboot.c:208-281 | performs the erases, writes and tail header of the abstract release, in order, and reports its result |
| `Boot.Loader.DestPartVerify` | src/qboot.c:292-320 | accepts exactly a valid tail header with the image CRC it asks for, and overwrites the global header |
| `Boot.Loader.FwUpdate` | src/qboot.c:391-421 | release and verification; on success the destination verifies under the global header |
| `Boot.Loader.ReleaseSignCheck` | src/qboot_custom_ops.c:259-270 | true exactly when the sign word is in place behind the package |
| `Boot.Loader.ReleaseSignWrite` | src/qboot_custom_ops.c:280-290 | programs the sign word behind the package, or nothing when it does not fit |
| `Boot.Loader.ReleaseChecked` | src/qboot.c:840-861 | performs the operations of the abstract protocol behind the checks |
| `Boot.Loader.ReleaseFromPart` | src/qboot.c:802-870 | performs exactly the operations of the abstract protocol and reports its result |
| `Boot.Loader.AppResumeFrom` | src/qboot.c:736-793 | restores only a package named for the application, and never writes a sign |
| `Boot.Loader.FwReleaseDifferential` | src/qboot.c:224-280 | a differential release succeeds exactly when the patch yields an image and the header fits; the partition is then the image in erased cells with the header programmed over its tail |
| `Boot.Loader.FwUpdateDifferential` | src/qboot.c:391-421 | succeeds exactly when that partition verifies, and the global header is then the one read back: the header of the package when image and header do not overlap |
| `Boot.Loader.ReleaseDifferential` | src/qboot.c:802-870 | the protocol over a differential package: the sign is written only when the application partition has passed verification, and nothing else of the source changes |
| `Update.UpdateSafety` | src/qboot_update.c:400-674 | in every event sequence the app is let run only after a valid-app answer, a successful recovery or a successful finish in that event, with reason NONE or DONE, and READY implies the ready flag |
| `Update.ProbeOnce` | src/qboot_update.c:400-408 | recovery is tried at most once between consecutive register or start events |
| `Update.IdleTimeoutIsReal` | src/qboot_update.c:556-582 | a download is given up only when the 32-bit difference to the reading of its last start or data event has reached the idle window |
| `Update.IdleTimeoutInOrder` | src/qboot_update.c:556-582 | with readings in order it is given up only when the idle window has truly passed, and in every round in which it has, up to a whole turn of the counter |
| `Update.GivenUpEarly` | src/qboot_update.c:524-560 | otherwise it is given up early exactly when the reading of the round is older than that of the last activity |
| `Update.DataInTheMiddle` | src/qboot_update.c:469-476 | a data event between reading and comparison makes it be given up at once |
| `Update.PollCountdown` | src/qboot_update.c:524-612 | until the loop is left, 32-bit subtraction gives a true elapsed time that grows every round |
| `Update.PollEnds` | src/qboot_update.c:524-612 | across tick wrap-around the poll loop ends at the latest one round after its window |
| `Update.PollEndsIff` | src/qboot_update.c:524-612 | without further events the loop ends if and only if there is a window and the app is valid or an unused probe succeeds |
| `Lives.ReasonTells` | src/qboot_update.c:440-674 | over all events and resets, the kept reason tells exactly whether an update is pending: since the last request or failed result no download or result was good, no window led back to the app, and the shell wrote no other reason |
| `Lives.RegisterDecides` | src/qboot_update.c:641-674 | registration lets the app run exactly when no update is pending and the app is valid; otherwise it waits with a fresh window |
| `Lives.RequestHolds` | src/qboot_update.c:440-445 | after a request or a failed result the app is not let run across any number of resets until the update is settled |
| `Lives.FinishLetsRun` | src/qboot_update.c:484-504 | a download that finishes well lets the app run at once, and so does the registration after the next reset |
| `Lives.ReasonStored` | src/qboot_update.c:440-674 | the reason is always the last one handed to the boot loader's callback |
| `Lives.ProbeFresh` | src/qboot_update.c:400-408 | after a registration or a start an overdue round with an invalid app tries recovery exactly when none has since |
| `Lives.ReceivesWhileRunning` | src/qboot_update.c:452-516 | the manager receives exactly from a start to the next finish, abort, request, failed result, registration or overdue round |
| `Lives.WaitTimeoutIsReal` | src/qboot_update.c:531-554 | a waiting manager looks at the app exactly when its window has run out since it began, and leaves exactly when there is a way back |
| `Update.Manager.RegisterOps` | src/qboot_update.c:641-674 | the register event does what the state machine says, callback by callback |
| `Update.Manager.HandleRequest` | src/qboot_update.c:440-445 | the request event likewise |
| `Update.Manager.HandleStart` | src/qboot_update.c:452-462 | the start event likewise, with a fresh probe |
| `Update.Manager.HandleData` | src/qboot_update.c:469-476 | the data event likewise |
| `Update.Manager.HandleFinish` | src/qboot_update.c:484-504 | the finish event likewise |
| `Update.Manager.HandleAbort` | src/qboot_update.c:511-516 | the abort event likewise |
| `Update.Manager.HandleResult` | src/qboot_update.c:620-631 | the result event likewise |
| `Update.Manager.TryRecoverOnce` | src/qboot_update.c:400-408 | calls recovery only when the probe is unused |
| `Update.Manager.Round` | src/qboot_update.c:529-582 | one round of the poll loop does what the state machine says |
| `Update.Manager.Poll` | src/qboot_update.c:524-612 | the poll loop ends within its window and one round, ready |
| `ReasonText.ParseU32` | src/qboot_update.c:700-767 | accepts exactly a nonempty decimal or 0x-prefixed hexadecimal numeral below 2^32 of any length, and returns its value |
| `ReasonText.ParseInvertsFormat` | src/qboot_update.c:778-778 | every value printed as 0x%08x is read back |
| `ReasonText.ParseInvertsDecimal` | src/qboot_update.c:700-767 | every decimal numeral below 2^32 is read back, and no larger one is accepted |

## Left out

* Platform code, jump to the application, watchdog, LED, pins, shell device and thread start-up.
* Internals of zlib inflate, FastLZ, QuickLZ, the AES block cipher and the patch library.
* The filesystem backend, the FAL wrappers, backend dispatch and the algorithm registry: one storage
  object and a lookup function stand for them. The lookup gives codecs of one state type per build,
  through which the stored format passes unchanged.
* The CRC library, which is not in the repository; the model has the CRC-32 that the packaging tool computes,
  with the initial value and final inversion that the boot loader adds.
* Device faults: a storage operation fails exactly when it is out of range, and size and alignment
  queries and allocation always succeed.
* The download helper of the update manager and its handle bookkeeping, and the progress output.
* The product-code check, which the default configuration leaves out, and the clone, delete and
  probe shell commands.
* Power-cut safety of differential updates: the old image is consumed in place, so there is none.
- Hpatch.Patcher.HpiPatch: a run is given a bound on the number of callbacks, arbitrarily large, because a library that never returns has no result; the progress percentage, which divides by the announced length, is not modelled.
- Hpatch.ReleaseFromPart: sizes are below 2^31 in all, the sector size is a power of two and the partition is whole sectors, as the alignment macros assume.
- Codecs.FramedDecompress: what the decoder does with a block that runs past the pending input is any function of its state, that input and the announced length; a FastLZ decoder that reports more than its output room and a QuickLZ decoder that writes past it are not covered.
- Stream.FwStreamProcess: source and destination differ, and the pass does not overrun the input buffer. `Boot` discharges that for stored, framed and one-array builds; for gzip it holds exactly outside the risky sizes (see above), and what the memory behind an overrun buffer holds afterwards is not modelled. The branch for a missing cipher table is not modelled either.
- Stream.ReadMore: the same two restrictions, for one read.
- Boot.Loader.AppCrcCheck: gzip packages whose pass overruns the input buffer are not covered.
- Boot.Loader.FwCheck: the same.
- Boot.Loader.FwRelease: the same.
- Boot.Loader.FwUpdate: the same.
- Boot.Loader.AppResumeFrom: the same, and differential packages.
- Boot.Loader.ReleaseFromPart: differential packages go through `ReleaseDifferential` instead, and a package that names its own partition as its target, or that overruns the gzip input buffer, is not covered.
- StreamProof.StreamingRefinesOneShot: the body length and the read size are whole cipher blocks; what AES does with a partial last block is not shown in the repository.
- Boot.Loader.ReleaseDifferential: the package lies in DOWNLOAD and names the application; the engine patches that partition only.
- PackageTool.SelectsWhatWasAsked: option values are ASCII, and the clock and the files that the command reads are parameters.
- GzipProof.GzipMeets: claims nothing about progress; `GzipCompletion` does.
- SharedBuffer.FwStreamShared: a cipher gives the same plain text when it deciphers a buffer in place.
- Resume.RestoresApp: header and image lie inside the application partition; differential packages are not restored.
- Factory.FactoryRestores: the package being released is not differential, and neither is the one restored.
- DeltaPackage.DeltaDelivers: header and image do not overlap; whether the library reads ahead is a property of the patch.
- PowerCut.PowerCutRestart: for packages that are not differential, with header and image inside the destination and source and destination different.
- Update.PollEnds: the callbacks keep to their answers while the loop runs, and the tick counter moves by at least one and never past a whole window in one round.
