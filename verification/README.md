# Byte stores, containers, JPEG editing and option parsing of exiv2 and exif

A Dafny 4.11 model of the parts of two image metadata programs that keep state over long runs, with proofs of what
these parts promise. `dafny verify dfyconfig.toml` checks everything.

| files | what they model |
|---|---|
| `Basics.dfy`, `Bytes.dfy` | optional values, slices, bytes, and longest common prefixes and suffixes |
| `MemIo.dfy` | the growable in-memory file, refined to a byte string with a cursor and an end-of-file flag |
| `RemoteBlocks.dfy`, `RemoteIo.dfy`, `RemoteRuns.dfy` | the lazily filled block map over a remote file, and whole histories of reads and seeks on it |
| `RemoteDiff.dfy`, `RemotePlaceholders.dfy` | the write that compares a new version with the block map and submits one patch |
| `FileIo.dfy` | the access modes of a file over a C stream |
| `JpegFormat.dfy`, `JpegRoundTrip.dfy`, `JpegCanonical.dfy`, `JpegSegments.dfy` | the JPEG segment parser and writer, when each undoes the other, and files of whole segments byte by byte |
| `JpegData.dfy`, `JpegEdit.dfy`, `JpegEditExact.dfy`, `JpegReload.dfy` | the object that loads, edits and saves a JPEG file, and what an edit changes |
| `BmffBoxes.dfy`, `BmffImage.dfy`, `BmffIloc.dfy` | the recursive walk over the boxes of an ISO base media file |
| `BmffWriter.dfy`, `BmffReload.dfy`, `BmffItems.dfy` | written box trees and item locations, and how they are read back |
| `AsfDecoders.dfy`, `Asf.dfy`, `AsfWriter.dfy` | the decoders of single ASF objects, the recursion over them, and how written objects are read back |
| `ConvertTable.dfy`, `ConvertFlash.dfy`, `Convert.dfy`, `ConvertMove.dfy`, `ConvertValues.dfy`, `Conversion.dfy` | the conversion of Exif tags to XMP properties: its table as data, copying, moving, what each property then holds, and the object that does both |
| `Getopt.dfy`, `GetoptScanner.dfy`, `GetoptWords.dfy` | the POSIX option scanner, its callback loop and the command lines they accept, word by word |
| `Params.dfy`, `ParamsRuns.dfy`, `ParamsLetters.dfy` | the option handlers of exiv2 and the whole command lines they accept, letter by letter |

Code that updates objects is modelled by classes whose methods have the loops and branches of the original; each
method is proved against a function of its inputs and the old state, and the lemmas are about these functions, over
all inputs and all runs. What formats, letters and tables mean is stated apart from these functions, in literal bytes,
letters and names, and they are proved to read just that.

## Where the code does not meet its promise

These are results of the model. In each case the code is modelled as it is, and an if-and-only-if says when it does
what it should.

- A remote write of unchanged content ends in a length error, and one whose common prefix and suffix meet sends
  nothing, even if bytes between them were deleted: `RemoteDiff.WriteSucceedsIff`, `IdenticalFails`,
  `DeletionIsLost`. The condition, `left + right < |source|`, is about the two lengths that the code has computed
  just before. If prefix and suffix overlap in the remote file, the range sent is reversed, and the outcome is up to
  the server: `RemoteDiff.ReversedRange`.
- A remote write that compares a placeholder at the end of the file takes it for a whole block of zeros. A prefix or
  suffix may then be longer than the file, and bytes are lost (`RemotePlaceholders.PaddingLost`); the end that is kept
  may be one that was to be changed (`ChangeIsHidden`: writing 7, 2, 0, 0 to the file 1, 2, 5, 3, whose last block of
  three bytes is a placeholder, leaves the 5); or a change is not sent at all (`ChangeIsUnsent`). The exact condition is
  `WriteServesIff`.
- A remote read that reaches the end of a whole number of blocks asks for a block that is not there:
  `RemoteBlocks.HighBlockInMap`, `RemoteRuns.InBoundsIff`.
- A file that was not opened with `+` as the second character of its mode can break the rule of the C library on mixing
  input and output once it has been reopened: `FileIo.SeparatedIff`, and for a single run `FileIo.RunSeparatedIff`.
- A JPEG payload of 65534 or 65535 bytes gets a wrong length field without a warning: `JpegEdit.LengthFieldIff`. Exif
  data set in a file whose first segment is scan data, or whose first `APP1` segment is behind it, is not found
  again: `JpegReload.EditReloadsIff`, `ScanOnlyLosesExif`.
- Every `APP1` segment is decoded and encoded as Exif data, so an edit of a file with a second one, such as XMP,
  rewrites that one too (`JpegEditExact.SecondRewritten`). Exactly the files of canonical segments whose later Exif data
  re-encodes to itself keep everything else: `EditChangesOnlyExifIff`.
- The limit of one box for 16 bytes rejects well-formed files (`BmffImage.VisitLimitRejects`). Item location entries
  in a box of version 2 or later, or with a 64-bit length, are rejected whenever they are read, and silently ignored
  when their count does not divide the length (`BmffIloc.ReadItems`, `EntriesFitIff`).
- `-t` is ignored behind another option for `rename`, and a late `-t` or `-T` sets the file name format to a leftover
  argument: `ParamsRuns.TimestampIff`, `FormatSnoc`.
- Every ASF object must leave 24 bytes of the file behind it, because its size is compared with what follows the header
  that the size includes: `Asf.SkippedIff`, `LoneObjectRejected`.
- Flash properties are replaced even if nothing may be overwritten (`Convert.KeptIff`), a property is lost when its
  conversion fails late (`Convert.LostIff`), a move may convert less than a copy (`ConvertMove.MoveIsCopyIff`,
  `MoveLosesTime`), and an undecodable comment and an unreadable fraction of a second are moved to nowhere
  (`ConvertMove.TakenIsWrittenIff`, `TakenFractionIff`).

## Assumptions

Where a method has a precondition beyond its object's invariant, it is one the code needs: a JPEG input must not start
with another byte than 0xff, since the load loop would not move on; a remote read must stay inside the block map; a
byte is not read from a placeholder. The Exif library is a pair of functions, and results that need it to keep data
say so (`Storable`, `Encodes`). A remote server answers a range request with the range clipped to its file or with the
whole file. The script that takes a patch is any function that replaces a range inside the file (`Replaces`); where a
result needs more of it, for ranges that end behind the file or before they start, it says so (`Clips`).

## Model

| member | source | states |
|---|---|---|
| `MemIo.WriteThenRead` | library/exiv2-0.28.5/src/basicio.cpp:701-708 | a write followed by a seek back, absolute or relative, reads exactly the bytes written, and neither operation needs to know what else is in the file |
| `MemIo.WritesCompose` | library/exiv2-0.28.5/src/basicio.cpp:701-708 | two writes in a row leave the same file as one write of both pieces, inside the file, across its end and at it |
| `MemIo.ReadsCompose` | library/exiv2-0.28.5/src/basicio.cpp:826-837 | two reads in a row return the bytes of one read of both lengths and leave the same cursor and the same end-of-file flag |
| `MemIo.WrittenBytes` | library/exiv2-0.28.5/src/basicio.cpp:701-708 | a store that has the data at the cursor and every other byte where it was is the abstract result of the write |
| `MemIo.WrittenIs` | library/exiv2-0.28.5/src/basicio.cpp:701-708 | a write puts its bytes at the cursor, moves behind them, grows the file if it must, and leaves every other byte and the flag as they were |
| `MemIo.ReadIs` | library/exiv2-0.28.5/src/basicio.cpp:826-837 | a read returns the bytes there are up to the count, moves behind them, and sets the flag only if there were not enough |
| `MemIo.SeekIs` | library/exiv2-0.28.5/src/basicio.cpp:761-787 | a seek from the start, the cursor or the end goes to a target in the file and clears the flag; one past the end only sets it, one before the start does nothing |
| `MemIo.FirstAllocation` | library/exiv2-0.28.5/src/basicio.cpp:657-670 | the first owned buffer is larger than the need, holds the wrapped data and wastes at most one 32 KiB block |
| `MemIo.Reallocation` | library/exiv2-0.28.5/src/basicio.cpp:672-686 | each reallocation overshoots the need by at least 1 byte and at most 4 MiB, and keeps the bound that ties the number of reallocations to the capacity |
| `MemIo.GrowthOverRuns` | library/exiv2-0.28.5/src/basicio.cpp:652-687 | over any run of writes the number of reallocations is at most 6 + capacity / 4 MiB, every write has room, and the capacity exceeds the largest need by at most 4 MiB |
| `MemIo.MemIo.constructor` | library/exiv2-0.28.5/src/basicio.cpp:564-575 | a new store is an empty file at position 0 |
| `MemIo.MemIo.Wrap` | library/exiv2-0.28.5/src/basicio.cpp:585-586 | a wrapping store shows the wrapped bytes and owns nothing |
| `MemIo.MemIo.Own` | library/exiv2-0.28.5/src/basicio.cpp:657-670 | taking ownership moves the bytes to a fresh buffer and leaves the wrapped one as it was |
| `MemIo.MemIo.Enlarge` | library/exiv2-0.28.5/src/basicio.cpp:672-686 | growing keeps all bytes, in place or in a new buffer, and counts at most one reallocation |
| `MemIo.MemIo.Reserve` | library/exiv2-0.28.5/src/basicio.cpp:652-687 | afterwards the store owns a buffer with room for the write, and every old byte is where it was |
| `MemIo.MemIo.Write` | library/exiv2-0.28.5/src/basicio.cpp:701-708 | refines the abstract write: bytes, cursor and flag; a wrapped buffer is never changed |
| `MemIo.MemIo.WriteFrom` | library/exiv2-0.28.5/src/basicio.cpp:737-753 | writes the whole rest of another store in 4096-byte pieces as one abstract write, leaves that store at its end, and does nothing when a store is written to itself |
| `MemIo.MemIo.CopyBlock` | library/exiv2-0.28.5/src/basicio.cpp:741-751 | one turn of the copy loop: the next piece is read, and written as it was read |
| `MemIo.MemIo.CopyRest` | library/exiv2-0.28.5/src/basicio.cpp:737-753 | the copy loop ends with everything from the cursor of the source on written, in order and once |
| `MemIo.MemIo.PutB` | library/exiv2-0.28.5/src/basicio.cpp:755-759 | refines the abstract write of one byte |
| `MemIo.MemIo.Read` | library/exiv2-0.28.5/src/basicio.cpp:826-837 | returns the bytes from the cursor on, as many as there are, and sets the flag only when asked for more |
| `MemIo.MemIo.GetB` | library/exiv2-0.28.5/src/basicio.cpp:839-845 | is a read of one byte, except that at the end it returns -1 and sets the flag |
| `MemIo.MemIo.Seek` | library/exiv2-0.28.5/src/basicio.cpp:761-787 | fails exactly for targets outside the file; a failed seek keeps the cursor, and one past the end sets the flag |
| `MemIo.MemIo.Open` | library/exiv2-0.28.5/src/basicio.cpp:805-809 | goes back to the start and clears the flag |
| `RemoteBlocks.BlocksCover` | library/exiv2-0.28.5/src/basicio.cpp:1117-1118 | exactly the blocks below the block count start inside the file |
| `RemoteBlocks.SourceShows` | library/exiv2-0.28.5/src/basicio.cpp:1263-1272 | what `read` copies out of a block is that part of the remote file, or zeros for a placeholder |
| `RemoteBlocks.PieceOfView` | library/exiv2-0.28.5/src/basicio.cpp:1260-1272 | the file that a reader is shown, put together block by block, has each block at its own place |
| `RemoteBlocks.WholeIsFile` | library/exiv2-0.28.5/src/basicio.cpp:1244-1280 | without placeholders a reader is shown the remote file itself |
| `RemoteBlocks.WholeByte` | library/exiv2-0.28.5/src/basicio.cpp:1263-1272 | each byte a reader is shown is the remote one, or zero if its block is a placeholder |
| `RemoteBlocks.HighBlockInMap` | library/exiv2-0.28.5/src/basicio.cpp:1249-1254 | `read` stays inside the block map if and only if it ends before the end of the file, or the file is not a whole number of blocks |
| `RemoteBlocks.ReadRange` | library/exiv2-0.28.5/src/basicio.cpp:1249-1251 | such a read asks for a non-empty range of existing blocks |
| `RemoteRuns.InBoundsIff` | library/exiv2-0.28.5/src/basicio.cpp:1244-1326 | a whole history of reads and seeks stays inside the block map if and only if the file is not a whole number of blocks or no read that is carried out gets to its end |
| `RemoteRuns.ReadsJoin` | library/exiv2-0.28.5/src/basicio.cpp:1244-1280 | however reading on is cut into reads, it returns the bytes from the cursor on, each once and in order |
| `RemoteRuns.AnswerIs` | library/exiv2-0.28.5/src/basicio.cpp:1244-1326 | what a plain file answers to a read or a seek: bytes, cursor and flag |
| `RemoteRuns.ServeOne` | library/exiv2-0.28.5/src/basicio.cpp:1244-1326 | one read or seek on the block cache gives the bytes, the cursor and the flag of the same request on the plain remote file, whatever has been fetched before, but for zeros where a block was a placeholder |
| `RemoteRuns.Serve` | library/exiv2-0.28.5/src/basicio.cpp:1244-1326 | so does every request of a whole history; without placeholders at its start all answers are the plain file's |
| `RemoteIo.Server.GetFileLength` | library/exiv2-0.28.5/src/basicio.cpp:1431-1447 | the server tells the length of the file, or nothing |
| `RemoteIo.Server.GetDataByRange` | library/exiv2-0.28.5/src/basicio.cpp:1449-1469 | the server answers a range request with the range clipped to the file, or with the whole file |
| `RemoteIo.Server.WriteRemote` | library/exiv2-0.28.5/src/basicio.cpp:1471-1521 | hands the data and the range to the script of the server, whose result is the new file |
| `RemoteIo.RemoteIo.FillBlocks` | library/exiv2-0.28.5/src/basicio.cpp:1079-1090 | the copied blocks hold exactly their parts of the remote file, and no other block changes |
| `RemoteIo.RemoteIo.Trim` | library/exiv2-0.28.5/src/basicio.cpp:1066-1069 | only blocks that are there are skipped, and a missing one is left at both ends unless none is missing |
| `RemoteIo.RemoteIo.Fetch` | library/exiv2-0.28.5/src/basicio.cpp:1072-1091 | whichever way the server answers, the asked blocks agree with the remote file and the other blocks stay or agree too |
| `RemoteIo.RemoteIo.PopulateBlocks` | library/exiv2-0.28.5/src/basicio.cpp:1064-1094 | no block of the range is missing afterwards; one request from the first to the last missing block was made, and none if nothing was missing |
| `RemoteIo.RemoteIo.Open` | library/exiv2-0.28.5/src/basicio.cpp:1108-1141 | opens with a coherent block map at position 0; a file of known length 0 is refused; opening again keeps the blocks |
| `RemoteIo.RemoteIo.Close` | library/exiv2-0.28.5/src/basicio.cpp:1143-1156 | goes back to the start of an open file |
| `RemoteIo.RemoteIo.Read` | library/exiv2-0.28.5/src/basicio.cpp:1244-1280 | returns exactly the remote bytes from the cursor on, zeros where a block is only a placeholder, moves the cursor past them and sets the flag at the end; no block is lost |
| `RemoteIo.RemoteIo.CopyOut` | library/exiv2-0.28.5/src/basicio.cpp:1260-1272 | the copy loop joins the blocks without gap or overlap |
| `RemoteIo.RemoteIo.GetB` | library/exiv2-0.28.5/src/basicio.cpp:1282-1294 | returns the remote byte at the cursor, or -1 with the flag set at the end |
| `RemoteIo.RemoteIo.Seek` | library/exiv2-0.28.5/src/basicio.cpp:1304-1326 | never fails: positions outside the file mean its end, and only one past it sets the flag |
| `RemoteIo.RemoteIo.PopulateFakeData` | library/exiv2-0.28.5/src/basicio.cpp:1378-1384 | missing blocks become placeholders, all others stay |
| `RemoteIo.RemoteIo.CompareForward` | library/exiv2-0.28.5/src/basicio.cpp:1187-1193 | counts the longest common prefix of the buffer and the block |
| `RemoteIo.RemoteIo.CompareBackward` | library/exiv2-0.28.5/src/basicio.cpp:1209-1216 | counts the longest common suffix of the buffer and the block |
| `RemoteIo.RemoteIo.CompareNext` | library/exiv2-0.28.5/src/basicio.cpp:1182-1195 | one turn of the first loop extends the common prefix of source and blocks, and stops only at a difference or an end |
| `RemoteIo.RemoteIo.FindLeft` | library/exiv2-0.28.5/src/basicio.cpp:1179-1195 | finds the length of the longest common prefix of the source and the bytes of all blocks |
| `RemoteIo.RemoteIo.ComparePrevious` | library/exiv2-0.28.5/src/basicio.cpp:1200-1218 | one turn of the second loop: the blocks from here on still match the end of the source, or the result is found |
| `RemoteIo.RemoteIo.FindRight` | library/exiv2-0.28.5/src/basicio.cpp:1197-1218 | finds the length of the common suffix, cut at the last whole block that fits the source |
| `RemoteIo.RemoteIo.Submit` | library/exiv2-0.28.5/src/basicio.cpp:1220-1226 | sends one replacement with the differing part of the source, sends nothing, or fails for want of a buffer, as the unsigned length says |
| `RemoteIo.RemoteIo.WriteFrom` | library/exiv2-0.28.5/src/basicio.cpp:1162-1228 | the whole write: the remote file becomes what the submission makes of it, and the source keeps its bytes |
| `Bytes.CommonPrefixUnique` | library/exiv2-0.28.5/src/basicio.cpp:1187-1193 | nothing longer than the computed prefix is a common prefix, and only it stops at a difference or an end |
| `Bytes.CommonSuffixUnique` | library/exiv2-0.28.5/src/basicio.cpp:1209-1216 | the same for common suffixes |
| `RemoteDiff.SubmissionCases` | library/exiv2-0.28.5/src/basicio.cpp:1220-1226 | in the unsigned arithmetic of the original: a patch when prefix and suffix leave something over, nothing when they meet exactly, a length error when they overlap |
| `RemoteDiff.PatchRestores` | library/exiv2-0.28.5/src/basicio.cpp:1220-1226 | the front of the file up to a common prefix, what lies between in the source, and the end of the file from a common suffix on make up the source |
| `RemoteDiff.WriteSucceedsIff` | library/exiv2-0.28.5/src/basicio.cpp:1162-1228 | with every block in memory, and any server that replaces a range inside its file: as long as prefix and suffix do not overlap in the remote file, a write brings it to the source if and only if left + right is below the length of the source (or both are empty); if they overlap, if and only if that holds and the server makes the source of the reversed range it is sent |
| `RemoteDiff.ReversedRange` | library/exiv2-0.28.5/src/basicio.cpp:1220-1226 | a server that keeps the bytes before the first and behind the second end of any range also makes the source of a reversed one, so that the condition is the same for all files |
| `RemoteDiff.IdenticalFails` | library/exiv2-0.28.5/src/basicio.cpp:1220-1222 | writing back unchanged content always ends in a length error |
| `RemoteDiff.DeletionIsLost` | library/exiv2-0.28.5/src/basicio.cpp:1220-1226 | a concrete deletion in the middle of a file sends nothing, so the remote file keeps the deleted byte |
| `RemotePlaceholders.ShownIsWhole` | library/exiv2-0.28.5/src/basicio.cpp:612-617 | for every block map without missing blocks, the bytes compared are the file as a reader is shown it, and zeros up to the end of the last block if that is a placeholder |
| `RemotePlaceholders.WriteServesIff` | library/exiv2-0.28.5/src/basicio.cpp:1162-1228 | for every such map and every source, whether something is sent or not: the write returns and each byte of the remote file is the one of the source, or was kept from a placeholder where the source has a zero, if and only if prefix and suffix do not overlap in the source, the length comes out right, and the end that is kept stays the same when it is moved by the zeros beyond the end of the file |
| `RemotePlaceholders.LengthKeptIff` | library/exiv2-0.28.5/src/basicio.cpp:1220-1226 | the remote file gets the length of the source if and only if neither prefix nor suffix is longer than the remote file, or nothing is sent and it had that length |
| `RemotePlaceholders.WriteKeepsUnsent` | library/exiv2-0.28.5/src/basicio.cpp:1184-1226 | if the length comes out right, the remote file keeps its own bytes at both ends and has the data sent in between; the source has at both ends what a reader is shown, behind the data moved by the zeros beyond the end |
| `RemotePlaceholders.ServesFetched` | library/exiv2-0.28.5/src/basicio.cpp:1162-1228 | without placeholders this means that the remote file becomes the source |
| `RemotePlaceholders.UnpaddedMoves` | library/exiv2-0.28.5/src/basicio.cpp:1220-1226 | without zeros beyond the end of the file the end may always be kept |
| `RemotePlaceholders.ChangeIsHidden` | library/exiv2-0.28.5/src/basicio.cpp:1197-1226 | a concrete file of four bytes: of two fetched bytes that are changed, one keeps its old value, because zeros of a placeholder are taken for the end |
| `RemotePlaceholders.ChangeIsUnsent` | library/exiv2-0.28.5/src/basicio.cpp:1220-1226 | a concrete file of three bytes: a fetched byte is set to zero, and nothing is sent |
| `RemotePlaceholders.PaddingLost` | library/exiv2-0.28.5/src/basicio.cpp:1220-1226 | a concrete file whose last block is a placeholder loses all its bytes when one is put in front of it |
| `RemoteDiff.RightIsLongest` | library/exiv2-0.28.5/src/basicio.cpp:1197-1218 | for sources no shorter than the remote file the computed suffix is the longest one |
| `RemoteDiff.RightIs` | library/exiv2-0.28.5/src/basicio.cpp:1197-1218 | the computed suffix is the longest common one, but no longer than the last blocks that fit in the source together |
| `RemoteDiff.BlockMatched` | library/exiv2-0.28.5/src/basicio.cpp:1202-1217 | one block compared backwards either ends the suffix at its true length or extends it by the block |
| `RemoteDiff.AllShownIsFile` | library/exiv2-0.28.5/src/basicio.cpp:612-617 | with every block in memory the compared bytes are the remote file |
| `FileIo.SeparatedIff` | library/exiv2-0.28.5/src/basicio.cpp:116-171 | over all runs, input and output on the C stream are kept apart as section 7.21.5.3 of ISO/IEC 9899:2011 asks if and only if the second character of the opening mode is `+` |
| `FileIo.RunSeparatedIff` | library/exiv2-0.28.5/src/basicio.cpp:116-171 | one run in one mode keeps input and output apart if and only if the first access that the mode does not allow, if there is one, is not directly followed by an access of the other kind |
| `FileIo.BreakingBreaks` | library/exiv2-0.28.5/src/basicio.cpp:151-165 | for every other mode a concrete run breaks the rule: the reopened stream is left marked as positioned |
| `FileIo.RunTracks` | library/exiv2-0.28.5/src/basicio.cpp:116-149 | in a `+` mode, after any run, the recorded mode tells what the last call was |
| `FileIo.AlwaysPermitted` | library/exiv2-0.28.5/src/basicio.cpp:122-138 | in every mode no run reads a stream opened only for writing or writes one opened only for reading |
| `FileIo.SwitchKeepsOffset` | library/exiv2-0.28.5/src/basicio.cpp:145-170 | switching the mode, by a positioning call or by reopening, leaves the stream at its offset |
| `FileIo.OffsetIsPlain` | library/exiv2-0.28.5/src/basicio.cpp:145-170 | after any run in any mode but those for appending, the stream is where it would be without any switching |
| `FileIo.ReopensIff` | library/exiv2-0.28.5/src/basicio.cpp:122-143 | the file is reopened exactly for a read of one opened for writing only, or a write to one opened for reading only, and never for a seek |
| `FileIo.FileIo.Open` | library/exiv2-0.28.5/src/basicio.cpp:495-503 | a stream opened in a mode starts positioned |
| `FileIo.FileIo.SwitchMode` | library/exiv2-0.28.5/src/basicio.cpp:116-171 | makes a positioning call, a reopening or nothing, as the two modes and the opening mode decide |
| `FileIo.FileIo.ReadSome` | library/exiv2-0.28.5/src/basicio.cpp:533-544 | an input call directly behind the switch to reading |
| `FileIo.FileIo.WriteSome` | library/exiv2-0.28.5/src/basicio.cpp:302-306 | an output call directly behind the switch to writing |
| `FileIo.FileIo.SeekTo` | library/exiv2-0.28.5/src/basicio.cpp:441-462 | a positioning call behind the switch to positioning |
| `JpegRoundTrip.LoadOfSave` | library/exif-0.6.22/libjpeg/jpeg-data.c:117-286 | for every well-formed section list (payloads of at most 65533 bytes, Exif data that survives its codec, scan data last but for one bare marker) loading the saved bytes gives back every section and the scan data |
| `JpegRoundTrip.StepReads` | library/exif-0.6.22/libjpeg/jpeg-data.c:201-284 | one saved section is read back as it was written, and the next one starts right behind it |
| `JpegRoundTrip.ScanRead` | library/exif-0.6.22/libjpeg/jpeg-data.c:254-279 | scan data is read back to its last byte when one marker follows it, or when it is last and its second last byte is no 0xff |
| `JpegCanonical.SaveOfLoadIff` | library/exif-0.6.22/libjpeg/jpeg-data.c:117-286 | loading and saving reproduces a file byte for byte, with every Exif section encoded, if and only if the file is made of canonical segments |
| `JpegCanonical.CanonicalSaved` | library/exif-0.6.22/libjpeg/jpeg-data.c:131-175 | from any segment on, what was loaded of a canonical file is saved as the bytes it was loaded from |
| `JpegCanonical.SavedCanonical` | library/exif-0.6.22/libjpeg/jpeg-data.c:201-285 | a file that comes back unchanged has one 0xff before each marker, whole payloads and Exif data that re-encodes to itself |
| `JpegCanonical.CanonicalEncodes` | library/exif-0.6.22/libjpeg/jpeg-data.c:147-153 | the Exif sections of a canonical file can all be encoded, in at most 65533 bytes |
| `JpegFormat.StepAt` | library/exif-0.6.22/libjpeg/jpeg-data.c:201-224 | each turn of the load loop that does not stop moves on, stays inside the input and yields a section whose content fits its marker |
| `JpegFormat.SectionAt` | library/exif-0.6.22/libjpeg/jpeg-data.c:217-284 | the section read has the marker that was found, and the next one starts between the marker and the end of the input |
| `JpegSegments.StopIff` | library/exif-0.6.22/libjpeg/jpeg-data.c:207-217 | a turn of the load loop stops if and only if no byte follows the fill bytes, or that byte is below 0xc0 or is 0xff |
| `JpegSegments.CutRead` | library/exif-0.6.22/libjpeg/jpeg-data.c:228-233 | a marker other than 0xd8 and 0xd9 whose length field is cut, below two or beyond the end is read without payload, and ends the file |
| `JpegSegments.PieceRead` | library/exif-0.6.22/libjpeg/jpeg-data.c:219-284 | a segment with any marker from 0xc0 to 0xfe, written byte by byte, is read with its marker and its payload; 0xd8 and 0xd9 have neither length nor payload |
| `JpegSegments.FileRead` | library/exif-0.6.22/libjpeg/jpeg-data.c:189-286 | every file of such segments, with or without scan data and a last marker behind 0xda, is read as these segments and this scan data |
| `JpegSegments.FileSaved` | library/exif-0.6.22/libjpeg/jpeg-data.c:117-176 | and is written back byte for byte, if the Exif library keeps its data |
| `JpegData.JpegData.constructor` | library/exif-0.6.22/libjpeg/jpeg-data.c:43-66 | a new object has no sections and no scan data |
| `JpegData.JpegData.AppendSection` | library/exif-0.6.22/libjpeg/jpeg-data.c:68-88 | one zeroed section is added behind the others |
| `JpegData.JpegData.SkipFill` | library/exif-0.6.22/libjpeg/jpeg-data.c:207-209 | counts the 0xff bytes in front of a marker, seven at most |
| `JpegData.JpegData.LoadSection` | library/exif-0.6.22/libjpeg/jpeg-data.c:219-284 | appends exactly one section, keeps the scan data unless the section is `SOS`, and returns where the next one starts |
| `JpegData.JpegData.LoadStep` | library/exif-0.6.22/libjpeg/jpeg-data.c:201-284 | one turn of the loop: nothing changes when it stops, else one section is added |
| `JpegData.JpegData.Load` | library/exif-0.6.22/libjpeg/jpeg-data.c:189-286 | ends for every input that does not start with another byte than 0xff, and adds the sections that the input holds |
| `JpegData.JpegData.WriteSection` | library/exif-0.6.22/libjpeg/jpeg-data.c:132-174 | appends the bytes of one section and leaves the bytes before them alone |
| `JpegData.JpegData.Save` | library/exif-0.6.22/libjpeg/jpeg-data.c:117-176 | writes every section once, in order, with the scan data behind `SOS` |
| `JpegData.JpegData.GetSection` | library/exif-0.6.22/libjpeg/jpeg-data.c:453-465 | finds the first section with the marker |
| `JpegData.JpegData.GetExif` | library/exif-0.6.22/libjpeg/jpeg-data.c:467-482 | returns the Exif data of the first `APP1` section |
| `JpegData.JpegData.SetExif` | library/exif-0.6.22/libjpeg/jpeg-data.c:484-504 | replaces the first `APP1` section or inserts one behind the first section, and moves no other section out of order |
| `JpegData.IndexOf` | library/exif-0.6.22/libjpeg/jpeg-data.c:461-464 | the section found has the marker and none before it has |
| `JpegEditExact.EditChangesOnlyExifIff` | library/exif-0.6.22/libjpeg/jpeg-data.c:484-504 | for every file that starts with 0xff: replacing the Exif data changes exactly the first `APP1` segment, or inserts one right behind the first segment, and all later Exif data can be written, if and only if the file is made of canonical segments apart from its first `APP1` segment, which may hold anything |
| `JpegEditExact.SecondRewritten` | library/exif-0.6.22/libjpeg/jpeg-data.c:147-159 | a concrete file with two `APP1` segments: the second one, whatever it is for, is decoded and encoded as Exif data by an edit of the first |
| `JpegEditExact.EditableLaterEncode` | library/exif-0.6.22/libjpeg/jpeg-data.c:147-153 | in a file that is canonical apart from its first `APP1` segment all later Exif data can be written, in at most 65533 bytes |
| `JpegEdit.ReplaceAt` | library/exif-0.6.22/libjpeg/jpeg-data.c:131-175 | from any segment on, replacing the first `APP1` section replaces its bytes in the file and no others, whatever was in that segment |
| `JpegEdit.ActionSave` | library/exif-0.6.22/exif/actions.c:159-190 | load, replace, save: the written file is the edited one |
| `JpegEdit.LengthFieldIff` | library/exif-0.6.22/exif/actions.c:170-178 | the two length bytes tell the true payload length if and only if it is at most 65533, although no warning is given up to 65535 |
| `JpegReload.CanonicalLoads` | library/exif-0.6.22/libjpeg/jpeg-data.c:189-286 | a canonical file loads to a well-formed section list, with scan data exactly when it has an `SOS` section |
| `JpegReload.EditReloadsIff` | library/exif-0.6.22/libjpeg/jpeg-data.c:484-504 | on every file that is canonical apart from its first `APP1` segment: loading the edited file gives the new Exif data, together with all edited sections and the old scan data, if and only if no scan data comes before the place of the edit; otherwise no Exif data is found at all |
| `JpegReload.EditableLoads` | library/exif-0.6.22/libjpeg/jpeg-data.c:189-286 | a file that is canonical apart from its first `APP1` segment loads to a list that is well-formed apart from its first `APP1` section |
| `JpegReload.ScanOnlyLosesExif` | library/exif-0.6.22/libjpeg/jpeg-data.c:484-504 | the file ff da 00 02 is canonical, and after Exif data is set in it no Exif data is found in the result |
| `JpegReload.LostBehindScan` | library/exif-0.6.22/libjpeg/jpeg-data.c:254-279 | of sections that reach an `SOS` section only those up to it are found again, and no Exif data behind them: its bytes are read as scan data |
| `JpegReload.EditWellFormed` | library/exif-0.6.22/libjpeg/jpeg-data.c:484-504 | an edit in front of the scan data keeps the section list well-formed |
| `JpegReload.EditFound` | library/exif-0.6.22/libjpeg/jpeg-data.c:467-504 | after an edit the new Exif data is the one that is found, and the sections before it are unchanged |
| `BmffBoxes.HeaderAt` | library/exiv2-0.28.5/src/bmffimage.cpp:262-299 | a header that is accepted, with a 32-bit, a 64-bit or a zero length, describes a box that lies inside its parent |
| `BmffBoxes.SameBox` | library/exiv2-0.28.5/src/bmffimage.cpp:245-598 | a file has at most one description as nested boxes at a given address |
| `BmffBoxes.RowGoesOn` | library/exiv2-0.28.5/src/bmffimage.cpp:388-391 | a longer row of boxes at the same place goes on where the shorter one ends |
| `BmffBoxes.SpacedBound` | library/exiv2-0.28.5/src/bmffimage.cpp:723-741 | addresses that are a header apart are at most as many as headers fit in the file |
| `BmffImage.BmffImage.Forget` | library/exiv2-0.28.5/src/bmffimage.cpp:248-250 | a top-level box starts with no visits, an inner one with all of them |
| `BmffImage.BmffImage.Enter` | library/exiv2-0.28.5/src/bmffimage.cpp:247-254 | the test for visiting a box twice never fires: a box is refused exactly for the number of visits or the depth |
| `BmffImage.BmffImage.Allowed` | library/exiv2-0.28.5/src/bmffimage.cpp:251-253 | the box may be entered, as the number of visits and the depth decide |
| `BmffImage.BmffImage.Record` | library/exiv2-0.28.5/src/bmffimage.cpp:254 | the address is entered once, behind all others |
| `BmffImage.BmffImage.ReadHeader` | library/exiv2-0.28.5/src/bmffimage.cpp:262-301 | reads the header or finds it broken, as the three length encodings and the end of the parent decide |
| `BmffImage.BmffImage.FindInner` | library/exiv2-0.28.5/src/bmffimage.cpp:316-391 | leaves the read position at the first inner box of every container kind |
| `BmffImage.BmffImage.OpenBox` | library/exiv2-0.28.5/src/bmffimage.cpp:245-326 | a box that is opened has been recorded once; one that is not opened has no description within the limits |
| `BmffImage.BmffImage.BoxHandler` | library/exiv2-0.28.5/src/bmffimage.cpp:245-598 | ends; on success it has found a box tree that describes the file from that address on, has entered each box of it once and in file order, and returns the address behind it; a structural error means that no tree within the limits exists |
| `BmffImage.BmffImage.WalkAll` | library/exiv2-0.28.5/src/bmffimage.cpp:388-391 | the inner boxes found fill the container from its first inner byte to its end without gap or overlap |
| `BmffImage.BmffImage.WalkCount` | library/exiv2-0.28.5/src/bmffimage.cpp:349-352 | as many inner boxes as counted are found side by side, none past the end of the list |
| `BmffImage.BmffImage.ReadMetadata` | library/exiv2-0.28.5/src/bmffimage.cpp:723-741 | ends with addresses entered in strictly increasing order, at least eight apart, at most one for eight bytes; it succeeds only with a forest that tiles the file and reports a structural error only if no forest within the limits does |
| `BmffImage.VisitLimitRejects` | library/exiv2-0.28.5/src/bmffimage.cpp:723-741 | a file of 44 bytes passes the type test and is tiled by a type box and a box with three empty ones, but no forest that tiles it is within the limit of one visit for 16 bytes; so the walk cannot succeed |
| `BmffWriter.Read16` | library/exiv2-0.28.5/src/bmffimage.cpp:340 | two bytes, most significant first, are read as their number |
| `BmffWriter.Read32` | library/exiv2-0.28.5/src/bmffimage.cpp:272-273 | four bytes, most significant first, are read as their number |
| `BmffWriter.Read64` | library/exiv2-0.28.5/src/bmffimage.cpp:286-288 | eight bytes, most significant first, are read as their number |
| `BmffWriter.HeadRead` | library/exiv2-0.28.5/src/bmffimage.cpp:262-301 | a header written with a length of four bytes, with a 1 and a length of eight, or with a 0 in a box that ends with its parent, is read back with its name and its end |
| `BmffWriter.HeaderNoneIff` | library/exiv2-0.28.5/src/bmffimage.cpp:262-299 | a header is refused if and only if it is cut, or its length is too short for itself or too long for its parent |
| `BmffWriter.TooShortIff` | library/exiv2-0.28.5/src/bmffimage.cpp:320-339 | a box is too short if and only if its name is meta, iloc, THMB or PRVW and it has fewer than four bytes, or its name is iinf and it has fewer than six |
| `BmffWriter.LayoutRead` | library/exiv2-0.28.5/src/bmffimage.cpp:316-391 | the inner boxes of a written box begin behind four bytes in meta, six in iinf, sixteen and twenty-four in the two Canon boxes, at once in moov, iprp and ipco; all other boxes have none |
| `BmffWriter.NodeDescribed` | library/exiv2-0.28.5/src/bmffimage.cpp:245-598 | every written tree of boxes, in all three forms of header, is described by its own addresses |
| `BmffWriter.RowDescribed` | library/exiv2-0.28.5/src/bmffimage.cpp:388-391 | written boxes side by side are described without gap |
| `BmffReload.OnlyForest` | library/exiv2-0.28.5/src/bmffimage.cpp:723-741 | a written file is tiled by the boxes that were written and by no others |
| `BmffReload.WalkWritten` | library/exiv2-0.28.5/src/bmffimage.cpp:723-741 | the walk over a written file gives its box tree back, and can only fail in a payload if no top-level box has more boxes than one for 16 bytes of file, and one |
| `BmffIloc.Step` | library/exiv2-0.28.5/src/bmffimage.cpp:430-436 | entries are read only if their size is a whole number of at least 12 bytes that fills the box behind 16 bytes |
| `BmffIloc.EntriesFitIff` | library/exiv2-0.28.5/src/bmffimage.cpp:430-441 | the entries fit in the payload if and only if the version is 0 or 1 and the header has eight bytes |
| `BmffIloc.ReadItems` | library/exiv2-0.28.5/src/bmffimage.cpp:413-463 | the whole case: entries are ignored when their count does not divide the length; otherwise they are accepted only in versions 0 and 1 with a 32-bit length, and of entries with one ID the last recordable one counts |
| `BmffIloc.ReadEntries` | library/exiv2-0.28.5/src/bmffimage.cpp:436-462 | the loop stays inside the payload, and records every entry or finds the box corrupt |
| `BmffItems.EntryReads` | library/exiv2-0.28.5/src/bmffimage.cpp:443-453 | a written entry of 14, 16 or 18 bytes is read back with its identifier, its offset and its length |
| `BmffItems.StepFound` | library/exiv2-0.28.5/src/bmffimage.cpp:430-436 | the size of the entries is found again from the length of the box |
| `BmffItems.TableCollected` | library/exiv2-0.28.5/src/bmffimage.cpp:436-462 | the loop over written entries records for each identifier the last entry that has an offset, a length and an identifier, and changes nothing else |
| `BmffItems.ReadWritten` | library/exiv2-0.28.5/src/bmffimage.cpp:413-463 | a whole written location box is read back so |
| `Getopt.ParseIff` | library/exiv2-0.28.5/app/getopt.cpp:36-83 | the words are read as a command line if and only if it is a good one with exactly these words: each word is used once and in order |
| `Getopt.ParseSound` | library/exiv2-0.28.5/app/getopt.cpp:36-83 | what is read from words is a good command line whose words, written out, are these |
| `Getopt.ParseComplete` | library/exiv2-0.28.5/app/getopt.cpp:36-83 | every good command line is read back from its words |
| `Getopt.ClusterSplitsAnywhere` | library/exiv2-0.28.5/app/getopt.cpp:64-82 | writing a cluster as two, wherever it stands, tells the callbacks the same |
| `Getopt.ArgumentSplitsAnywhere` | library/exiv2-0.28.5/app/getopt.cpp:64-78 | writing an option with its argument as two words, wherever it stands, tells the callbacks the same |
| `Getopt.SplitBeforeOption` | library/exiv2-0.28.5/app/getopt.cpp:64-82 | flags in front of an option with an argument may stand in a word of their own exactly when the option letter may start a word |
| `GetoptWords.KnownIff` | library/exiv2-0.28.5/app/getopt.cpp:60-66 | a letter is an option if it is in the option string, and takes an argument if a colon stands behind its first place there |
| `GetoptWords.EndTold` | library/exiv2-0.28.5/app/getopt.cpp:51-59 | no words tell nothing; a double dash is taken away, and the words behind it are operands |
| `GetoptWords.OperandsTold` | library/exiv2-0.28.5/app/getopt.cpp:51-59 | from the first word on that is no double dash and no dash with a letter or a digit behind it, all words are operands |
| `GetoptWords.FlagsTold` | library/exiv2-0.28.5/app/getopt.cpp:64-82 | a word of flags tells these flags, each with what was left of the last argument |
| `GetoptWords.AttachedTold` | library/exiv2-0.28.5/app/getopt.cpp:64-78 | flags and an option with its argument in one word tell the flags and the option with that argument |
| `GetoptWords.SeparateTold` | library/exiv2-0.28.5/app/getopt.cpp:64-78 | flags and an option with its argument in the next word tell the same |
| `GetoptWords.RefusedTold` | library/exiv2-0.28.5/app/getopt.cpp:60-78 | a letter that is no option, or an option at the end without its argument, make the words unreadable |
| `GetoptWords.FailureReported` | library/exiv2-0.28.5/app/getopt.cpp:60-78 | a letter that is no option is reported as a question mark, a missing argument as a colon if the option string begins with one |
| `GetoptScanner.StepMoves` | library/exiv2-0.28.5/app/getopt.cpp:51-83 | a call that returns an option moves on, first in the words and then in the word, and that option is the next one of the command line ahead |
| `GetoptScanner.StepFails` | library/exiv2-0.28.5/app/getopt.cpp:60-78 | a failed call does not move, and no command line is ahead of it |
| `GetoptScanner.StepEnds` | library/exiv2-0.28.5/app/getopt.cpp:51-59 | at the end of the options the operands are the words that are left |
| `GetoptScanner.FailsForever` | library/exiv2-0.28.5/app/getopt.cpp:91-100 | after a failed call every further call fails the same way, so a callback that ignored it would be called forever |
| `GetoptScanner.Turn` | library/exiv2-0.28.5/app/getopt.cpp:91-100 | one turn of the loop hands the next option to the callback, moves on or ends |
| `GetoptScanner.Scanner.constructor` | library/exiv2-0.28.5/app/getopt.cpp:20-24 | a new scanner starts afresh |
| `GetoptScanner.Scanner.Next` | library/exiv2-0.28.5/app/getopt.cpp:36-83 | is one step of the scanner, from the first word on after a reset |
| `GetoptScanner.Scanner.ScanOptions` | library/exiv2-0.28.5/app/getopt.cpp:91-100 | ends for every list of words and every callback that reports its errors; without an error the callback has seen exactly the options of the command line, and the operands are left |
| `GetoptScanner.Scanner.Run` | library/exiv2-0.28.5/app/getopt.cpp:87-106 | without an error every operand has been handed over too, in order; with one, the words are no command line that the callbacks accept |
| `ParamsRuns.OptionsAcceptedIff` | library/exiv2-0.28.5/app/exiv2.cpp:351-840 | a list of options is accepted, in whatever order it comes, if and only if every two options agree and every argument that counts can be read; the settings are then what all options together ask for |
| `ParamsRuns.LineAcceptedIff` | library/exiv2-0.28.5/app/exiv2.cpp:351-929 | a whole command line is accepted if and only if its words can be parsed, its options are accepted and the action it names serves all of them |
| `ParamsRuns.FinalAction` | library/exiv2-0.28.5/app/exiv2.cpp:522-929 | in every accepted command line the final action serves every option given, and it is missing only without operands and without options for an action |
| `ParamsRuns.ConsistentIff` | library/exiv2-0.28.5/app/exiv2.cpp:1031-1082 | of the final tests only those on files, adjustments, modifications, directory and suffix can fail for an accepted command line, exactly when their options are missing or misplaced |
| `ParamsRuns.TimestampIff` | library/exiv2-0.28.5/app/exiv2.cpp:522-555 | in every accepted command line `-t` sets the time stamp, as it should, if and only if it is the first option for `rename` |
| `ParamsRuns.TimestampLost` | library/exiv2-0.28.5/app/exiv2.cpp:540-547 | `-r FMT -t` is accepted and renames without setting the time stamp |
| `ParamsRuns.FormatSnoc` | library/exiv2-0.28.5/app/exiv2.cpp:522-555 | the file name format is that of the first `-r` that counts, or the leftover argument of a late `-t` or `-T` |
| `ParamsRuns.OptionAcceptedIff` | library/exiv2-0.28.5/app/exiv2.cpp:351-466 | after any accepted options, one more is accepted if and only if it agrees with the action so far and its argument can be read or has been read already |
| `ParamsRuns.ExplainedSnoc` | library/exiv2-0.28.5/app/exiv2.cpp:351-466 | one more accepted option keeps action, adjustments, renaming, targets, modifications and other settings in step with the options given |
| `ParamsRuns.AcceptIff` | library/exiv2-0.28.5/app/getopt.cpp:91-100 | a callback that accepts just what keeps a command line good accepts exactly the good ones |
| `ParamsRuns.OperandsKeep` | library/exiv2-0.28.5/app/exiv2.cpp:842-929 | operands leave the settings alone and take the action only where all options may go |
| `Params.Params.constructor` | library/exiv2-0.28.5/app/exiv2.cpp:197-202 | a new object has no action, the default format and the default targets |
| `Params.Params.Option` | library/exiv2-0.28.5/app/exiv2.cpp:351-466 | dispatches every letter to its handler; unknown letters, `?` and `:` are errors |
| `Params.Params.EvalRename` | library/exiv2-0.28.5/app/exiv2.cpp:522-555 | the first option for `rename` decides on time stamps, later ones only on the format |
| `Params.Params.EvalAdjust` | library/exiv2-0.28.5/app/exiv2.cpp:557-579 | only the first `-a` is read |
| `Params.Params.EvalYodAdjust` | library/exiv2-0.28.5/app/exiv2.cpp:581-606 | only the first `-Y`, `-O` and `-D` are read |
| `Params.Params.EvalPrint` | library/exiv2-0.28.5/app/exiv2.cpp:608-682 | only the first `-p` or `-P` is read |
| `Params.Params.EvalPrintFlags` | library/exiv2-0.28.5/app/exiv2.cpp:684-756 | one bad letter among the items is an error, wherever it stands |
| `Params.Params.EvalTargets` | library/exiv2-0.28.5/app/exiv2.cpp:758-818 | the first option of its kind starts with no targets, later ones add to them |
| `Params.Params.EvalModify` | library/exiv2-0.28.5/app/exiv2.cpp:820-840 | commands and command files are collected in order, the last comment counts |
| `Params.Params.Nonoption` | library/exiv2-0.28.5/app/exiv2.cpp:842-929 | only the first operand can name an action; without one the action becomes print |
| `Params.Params.GetOpt` | library/exiv2-0.28.5/app/exiv2.cpp:1007-1090 | returns 0 exactly for command lines that the callbacks accept and that ask for help or the version or pass the final tests; the settings are then those of the command line |
| `Params.Params.Scan` | library/exiv2-0.28.5/app/exiv2.cpp:1007-1029 | the scan of the words: the settings, or an error, as the callbacks decide |
| `ParamsLetters.AcceptedIff` | library/exiv2-0.28.5/app/exiv2.cpp:351-840 | letter by letter: options are accepted if and only if -aYOD, -rtT, -pP, -d, -eC and -i are not mixed, -cmM go with -eC and -i only, and each argument that counts can be read |
| `ParamsLetters.ActionIff` | library/exiv2-0.28.5/app/exiv2.cpp:351-929 | letter by letter and word by word: which action an accepted command line ends in |
| `ParamsLetters.NamedIff` | library/exiv2-0.28.5/app/exiv2.cpp:842-929 | an action named by the first operand is taken if and only if the options are accepted and none of those that do not go with it is given; the files are the other operands |
| `ParamsLetters.UnnamedIff` | library/exiv2-0.28.5/app/exiv2.cpp:842-929 | without such a word the options alone decide |
| `ParamsLetters.FilesAre` | library/exiv2-0.28.5/app/exiv2.cpp:918-929 | the files are the operands, but for a first one that names an action |
| `ParamsLetters.TargetsAre` | library/exiv2-0.28.5/app/exiv2.cpp:758-818 | the targets are those named by all -d, -e and -C, or -i together |
| `ParamsLetters.TargetsDefault` | library/exiv2-0.28.5/app/exiv2.cpp:197-202 | without these options the targets are Exif, IPTC, comment and XMP data |
| `ParamsLetters.TestsIff` | library/exiv2-0.28.5/app/exiv2.cpp:1031-1082 | which command lines pass the final tests, in terms of the options given; -h and -V need nothing more |
| `ParamsLetters.Defaults` | library/exiv2-0.28.5/app/exiv2.cpp:197-202 | the settings without any options |
| `ParamsLetters.FirstRename` | library/exiv2-0.28.5/app/exiv2.cpp:522-539 | the first of -r, -t and -T sets the format or its flag |
| `ParamsLetters.LaterRename` | library/exiv2-0.28.5/app/exiv2.cpp:540-547 | later ones change the format only, and a later -r only if no format and no -T came before |
| `ParamsLetters.ShortenedIs` | library/exiv2-0.28.5/app/exiv2.cpp:1007-1029 | long options are replaced by their letters, and no other words change |
| `Asf.AsfVideo.ReadMetadata` | library/exiv2-0.28.5/src/asfvideo.cpp:215-237 | the recursion ends for any nesting and any declared counts, with at most one header read for 24 bytes of file |
| `Asf.AsfVideo.ReadHeader` | library/exiv2-0.28.5/src/asfvideo.cpp:239-247 | reads one header of 24 bytes and moves past it |
| `Asf.AsfVideo.DecodeBlock` | library/exiv2-0.28.5/src/asfvideo.cpp:249-295 | moves only forward, ends where the object or the decoder of its identifier says, and reads headers 24 bytes apart |
| `Asf.AsfVideo.DecodePayload` | library/exiv2-0.28.5/src/asfvideo.cpp:259-293 | runs the decoder of the identifier, whose end does not depend on the size that the object states |
| `Asf.AsfVideo.DecodeStream` | library/exiv2-0.28.5/src/asfvideo.cpp:310-343 | skips the stream names and the payload extensions that the object counts |
| `Asf.AsfVideo.DecodeHeader` | library/exiv2-0.28.5/src/asfvideo.cpp:297-308 | decodes as many objects as declared, or fails at the first bad one |
| `AsfDecoders.DecodeCodecs` | library/exiv2-0.28.5/src/asfvideo.cpp:391-409 | the loop over the codecs reads as many as declared or fails at the first bad one |
| `AsfDecoders.DecodeDescriptors` | library/exiv2-0.28.5/src/asfvideo.cpp:417-453 | the loop over the descriptors, with the value lengths of their types |
| `AsfDecoders.SkipNames` | library/exiv2-0.28.5/src/asfvideo.cpp:329-342 | the loops over stream names and payload extensions |
| `AsfDecoders.CodecsFit` | library/exiv2-0.28.5/src/asfvideo.cpp:391-409 | a codec list is accepted only if there are nine bytes for each declared codec, so no declared count makes the loop outrun the file |
| `AsfDecoders.DescriptorsFit` | library/exiv2-0.28.5/src/asfvideo.cpp:417-453 | the same with six bytes for each descriptor |
| `Asf.HeaderFits` | library/exiv2-0.28.5/src/asfvideo.cpp:297-308 | a header object that declares more objects than have room behind it is corrupt, whatever is in them |
| `Asf.ObjectsFit` | library/exiv2-0.28.5/src/asfvideo.cpp:305-307 | a row of objects takes up at least 24 bytes for each |
| `Asf.SkippedIff` | library/exiv2-0.28.5/src/asfvideo.cpp:256-293 | an object without decoder is skipped if and only if it has a payload and ends at least 24 bytes before the end of the file |
| `Asf.LoneObjectRejected` | library/exiv2-0.28.5/src/asfvideo.cpp:256 | a file that holds one whole object and nothing else is rejected, because the size is compared with what is left behind the header that it counts |
| `AsfWriter.Read16` | library/exiv2-0.28.5/src/asfvideo.cpp:310-312 | two bytes, least significant first, are read as their number |
| `AsfWriter.Read32` | library/exiv2-0.28.5/src/asfvideo.cpp:297-303 | four bytes, least significant first, are read as their number |
| `AsfWriter.Read64` | library/exiv2-0.28.5/src/asfvideo.cpp:239-247 | eight bytes, least significant first, are read as their number |
| `AsfWriter.FilePropsRead` | library/exiv2-0.28.5/src/asfvideo.cpp:479-493 | file properties end behind 16, 48, 12 and 4 bytes |
| `AsfWriter.StreamRead` | library/exiv2-0.28.5/src/asfvideo.cpp:360-389 | stream properties of a listed type end behind 54 bytes and the two parts whose lengths they tell |
| `AsfWriter.ExtensionRead` | library/exiv2-0.28.5/src/asfvideo.cpp:411-415 | a header extension ends behind 22 bytes and its data |
| `AsfWriter.JpegRead` | library/exiv2-0.28.5/src/asfvideo.cpp:345-358 | a degradable JPEG object ends behind 16 bytes and its data |
| `AsfWriter.CodecRead` | library/exiv2-0.28.5/src/asfvideo.cpp:394-408 | a codec ends behind its type, three lengths and three texts, the first length counted in characters of two bytes |
| `AsfWriter.DescriptorRead` | library/exiv2-0.28.5/src/asfvideo.cpp:421-449 | a descriptor ends behind its name and its value, which takes its stated length as text or bytes, else two, four or eight bytes, or none |
| `AsfWriter.ContentRead` | library/exiv2-0.28.5/src/asfvideo.cpp:455-477 | a content description ends behind five lengths and five texts |
| `AsfWriter.MoreStreamRead` | library/exiv2-0.28.5/src/asfvideo.cpp:310-343 | extended stream properties end behind 52 bytes, the stream names and the payload systems |
| `AsfWriter.PayloadRead` | library/exiv2-0.28.5/src/asfvideo.cpp:259-278 | each of the eight identifiers, byte by byte, selects its decoder, which ends right behind every written payload |
| `AsfWriter.StrangeNumber` | library/exiv2-0.28.5/src/asfvideo.cpp:286-293 | every other identifier has no decoder |
| `AsfWriter.ObjRead` | library/exiv2-0.28.5/src/asfvideo.cpp:249-295 | every written object, headers with objects in them included, is read up to its end |
| `AsfWriter.ObjsRead` | library/exiv2-0.28.5/src/asfvideo.cpp:297-308 | a header that declares the number of its written objects ends right behind them |
| `ConvertTable.RowsApart` | library/exiv2-0.28.5/src/convert.cpp:286-446 | no two rows of the table change the same property or take the same tag, the fields of the flash structure and the sub-second and reference tags included |
| `ConvertTable.Listing` | library/exiv2-0.28.5/src/convert.cpp:286-446 | each of the 104 tags has its row in the table |
| `ConvertTable.DatesBefore` | library/exiv2-0.28.5/src/convert.cpp:338-413 | the rows of both dates come before the row of the GPS time stamp |
| `Convert.OutcomeLocal` | library/exiv2-0.28.5/src/convert.cpp:549-843 | what a row does depends only on its own tags, and for the GPS time stamp on three others |
| `Convert.OutcomeFits` | library/exiv2-0.28.5/src/convert.cpp:549-843 | a conversion sets only the properties of its row |
| `Convert.CopiedAt` | library/exiv2-0.28.5/src/convert.cpp:498-504 | the properties of a row end up as that row alone would have left them, in any order of the rows and however often they come |
| `Convert.CopiedFrame` | library/exiv2-0.28.5/src/convert.cpp:498-504 | properties that belong to no row keep their values |
| `Convert.TableAt` | library/exiv2-0.28.5/src/convert.cpp:498-504 | what the table leaves at any property is what the one row of that property leaves, or what was there |
| `Convert.OrderIsFree` | library/exiv2-0.28.5/src/convert.cpp:498-504 | a copy with the rows in another order, or with rows repeated, gives the same XMP properties |
| `Convert.CopyTwice` | library/exiv2-0.28.5/src/convert.cpp:498-504 | copying a second time changes nothing, with and without overwriting |
| `Convert.KeptIff` | library/exiv2-0.28.5/src/convert.cpp:539-547 | for the table: without overwriting, every property that was there keeps its value, except for the five flash fields, which get the bits of the flash tag if and only if the flash structure has no entry as a whole |
| `Convert.LostIff` | library/exiv2-0.28.5/src/convert.cpp:539-547 | for the table: with overwriting, the property of a row is lost if and only if its tag is there and fails behind the point where the old value was erased, which is told kind by kind |
| `ConvertValues.TextCopied` | library/exiv2-0.28.5/src/convert.cpp:549-565 | for every row that copies a text, with its property: the property holds exactly the text of the tag |
| `ConvertValues.CommentCopied` | library/exiv2-0.28.5/src/convert.cpp:567-590 | the comment property holds the comment, or is lost |
| `ConvertValues.ArrayCopied` | library/exiv2-0.28.5/src/convert.cpp:592-610 | the array property holds the texts of the components up to the first unreadable one |
| `ConvertValues.VersionCopied` | library/exiv2-0.28.5/src/convert.cpp:745-758 | a version property has one character for each component |
| `ConvertValues.GpsVersionCopied` | library/exiv2-0.28.5/src/convert.cpp:760-775 | the GPS version property holds the decimals with single points between them |
| `ConvertValues.DateCopied` | library/exiv2-0.28.5/src/convert.cpp:612-743 | a date property holds date, T, time and fraction, cut at 29 characters |
| `ConvertValues.ClockCopied` | library/exiv2-0.28.5/src/convert.cpp:629-739 | the GPS time stamp property holds the day of the first tag that is there, T, time and fraction, cut at 29 characters |
| `ConvertValues.CoordinateCopied` | library/exiv2-0.28.5/src/convert.cpp:801-843 | a coordinate property holds the coordinate of the three fractions with its own reference |
| `ConvertValues.FlashCopied` | library/exiv2-0.28.5/src/convert.cpp:790-796 | each field of the flash structure holds its bits of the flash value |
| `ConvertValues.NotCopied` | library/exiv2-0.28.5/src/convert.cpp:539-547 | without its tag, or without room, a property stays as it is |
| `ConvertValues.MovedLikeCopied` | library/exiv2-0.28.5/src/convert.cpp:1333-1337 | a move gives all properties but the GPS time stamp the values that a copy gives them |
| `ConvertValues.LeftSame` | library/exiv2-0.28.5/src/convert.cpp:1333-1337 | the tags that a move leaves keep their values |
| `ConvertValues.TextErasedIff` | library/exiv2-0.28.5/src/convert.cpp:556-564 | a text is erased if and only if there is room and it is one |
| `ConvertValues.CommentErasedIff` | library/exiv2-0.28.5/src/convert.cpp:567-590 | a comment is erased if and only if there is room and it is one |
| `ConvertValues.ArrayErasedIff` | library/exiv2-0.28.5/src/convert.cpp:592-610 | an array is erased if and only if there is room and all components can be read |
| `ConvertValues.VersionErasedIff` | library/exiv2-0.28.5/src/convert.cpp:745-775 | a version is erased if and only if there is room |
| `ConvertValues.FlashErasedIff` | library/exiv2-0.28.5/src/convert.cpp:777-799 | the flash tag is erased if and only if there is room and it has a value |
| `ConvertValues.CoordinateErasedIff` | library/exiv2-0.28.5/src/convert.cpp:801-843 | a coordinate is erased together with its reference, if and only if there is room and it can be converted |
| `ConvertMove.MovedAt` | library/exiv2-0.28.5/src/convert.cpp:1333-1337 | every row but that of the GPS time stamp does in a move what it would do alone |
| `ConvertMove.MovedTable` | library/exiv2-0.28.5/src/convert.cpp:1333-1337 | what a move by the table makes of the tags and the properties of each row, told from the tags before the move |
| `ConvertMove.MoveIsCopyIff` | library/exiv2-0.28.5/src/convert.cpp:687-699 | a move by the table sets the same properties as a copy if and only if the GPS time stamp does not need a day, or there is a GPS date stamp, or the date that it takes the day from stays, or the other date stays and tells the same |
| `ConvertMove.MoveLosesTime` | library/exiv2-0.28.5/src/convert.cpp:687-699 | with only an original date and a GPS time stamp, the time stamp is copied but not moved |
| `ConvertMove.TakenIsWrittenIff` | library/exiv2-0.28.5/src/convert.cpp:549-843 | the own tag of a row that a move erases has left a property behind if and only if it is no comment that cannot be decoded and no array without components |
| `ConvertMove.TakenFractionIff` | library/exiv2-0.28.5/src/convert.cpp:709-739 | a sub-second tag is erased by a move if and only if its date is, and its digits reach the property if and only if they are a number in a text and date and time leave room for them |
| `ConvertFlash.FlashRoundTrip` | library/exiv2-0.28.5/src/convert.cpp:1040-1108 | a flash value comes back from XMP modulo 128 |
| `Conversion.Converter.constructor` | library/exiv2-0.28.5/src/convert.cpp:490-492 | a new converter copies and overwrites |
| `Conversion.Converter.PrepareXmpTarget` | library/exiv2-0.28.5/src/convert.cpp:539-547 | fails, changing nothing, exactly for a property that is there and must stay; otherwise it is gone |
| `Conversion.Converter.CnvExifValue` | library/exiv2-0.28.5/src/convert.cpp:549-565 | a plain value: nothing happens if it has no text |
| `Conversion.Converter.CnvExifComment` | library/exiv2-0.28.5/src/convert.cpp:567-590 | a comment: the tag is erased even if it cannot be decoded |
| `Conversion.Converter.AppendAll` | library/exiv2-0.28.5/src/convert.cpp:598-607 | the components are appended up to the first unreadable one |
| `Conversion.Converter.CnvExifArray` | library/exiv2-0.28.5/src/convert.cpp:592-610 | an array: what was written before a failure stays, and so does the tag |
| `Conversion.Converter.CnvExifDate` | library/exiv2-0.28.5/src/convert.cpp:612-743 | a date with its fraction of a second, whose tag is erased too |
| `Conversion.Converter.CnvGpsTime` | library/exiv2-0.28.5/src/convert.cpp:612-743 | the GPS time stamp with the day of the first tag that has one |
| `Conversion.BytesOf` | library/exiv2-0.28.5/src/convert.cpp:751-754 | one character for each component |
| `Conversion.PointedOf` | library/exiv2-0.28.5/src/convert.cpp:766-771 | decimals with points between |
| `Conversion.Converter.CnvExifVersion` | library/exiv2-0.28.5/src/convert.cpp:745-758 | a version number: the conversion cannot fail |
| `Conversion.Converter.CnvExifGPSVersion` | library/exiv2-0.28.5/src/convert.cpp:760-775 | a GPS version |
| `Conversion.Converter.CnvExifFlash` | library/exiv2-0.28.5/src/convert.cpp:777-799 | the flash structure: its target is tested and erased, and its five fields are set |
| `Conversion.Converter.CnvExifGPSCoord` | library/exiv2-0.28.5/src/convert.cpp:801-843 | a coordinate: fails without its reference tag, which is erased too |
| `Conversion.Converter.Convert` | library/exiv2-0.28.5/src/convert.cpp:498-504 | one row: nothing, a removed target or the new properties, and the tags that are left |
| `Conversion.Converter.CnvToXmp` | library/exiv2-0.28.5/src/convert.cpp:498-504 | all rows in their order, as a copy or as a move |

## Left out

- MemIo.MemIo.Write: offsets are unbounded integers, so sizes of 2^63 bytes and more, where `size_t` and `int64_t` wrap, are not modelled; nor are allocation failures and a null data pointer, which would leave the new bytes unset.
- MemIo.MemIo.Enlarge: `realloc` gives a new buffer; that it may grow the old one in place is not modelled.
- Moving the buffer of one in-memory file to another by `transfer`, which does not carry the capacity along.
- RemoteIo.RemoteIo.Read: has the precondition of `RemoteBlocks.HighBlockInMap`; outside it the original reads behind the block map.
- RemoteIo.RemoteIo.GetB: has the precondition that the byte's block is no placeholder, whose data pointer is null in the original.
- RemoteIo.RemoteIo.WriteFrom: does not promise a coherent block map after a patch, since the original does not update it; the source is an in-memory file of at most 2^63 - 1 bytes.
- RemoteIo.Server.WriteRemote: the server's script is a function of the file, the data and the range; it is not part of the original, which only sends these to it.
- RemoteIo.Server.GetFileLength: an abstract server; connection errors and wrong lengths are not modelled.
- RemoteIo.Server.GetDataByRange: an abstract server; errors, empty answers and bytes that are not of its file are not modelled.
- RemotePlaceholders.WriteServesIff: with prefix and suffix that overlap in the remote file it is about scripts that keep both ends of the file for a reversed range (`Clips`); what other scripts make of such a range is up to them.
- HTTP, curl and ssh, memory mapping, temporary files, renaming and permissions.
- FileIo.FileIo.SwitchMode: `ftell` and `fopen` succeed, and the mode has at least two characters, as all modes used have; data is not modelled, only the calls and the offset; in the modes for appending, whose output goes to the end of the file, `FileIo.OffsetIsPlain` says nothing.
- JpegRoundTrip.LoadOfSave: the Exif library is abstract, so its round trip is a hypothesis on the data stored.
- JpegCanonical.SaveOfLoadIff: files of 4 GiB and more, and failing allocations, are not modelled.
- Unloading, reference counts, logging and printing of JPEG sections.
- BmffImage.BmffImage.Payload: the contents of boxes (item entries, image sizes, colour profiles, previews, TIFF, XMP and compressed metadata) are accepted or refused by code that leaves the read position of the walk alone, and the item table is taken apart separately.
- BmffImage.BmffImage.ReadMetadata: opening the file and recognising its type come before the walk; only the bytes that the type test looks at are modelled, for the example of `BmffImage.VisitLimitRejects`. Seeks follow the in-memory file.
- Asf.AsfVideo.DecodeBlock: what the decoders store is not modelled, only how far they move and when they fail; texts are skipped in characters of two bytes. Which stream types the table of identifiers lists is a parameter. Seeks follow a store that refuses positions behind its end.
- Asf.AsfVideo.ReadMetadata: the test of the first identifier before the walk.
- Convert.OutcomeOf: reading numbers from texts, the arithmetic of times and coordinates on floating point numbers, and the printing of decimals are parameters; which tags are looked at, the branches, and what is cut off are not. A container holds one entry for each key, and an XMP value is its texts.
- Conversion.Converter.CnvToXmp: the rows of IPTC datasets, the digests and the conversions from XMP other than flash are not modelled.
- GetoptScanner.Scanner.Run: the virtual callbacks are function values, and the messages on the error stream are not modelled; for characters above 127 `isalnum` is taken to be false.
- Params.Params.GetOpt: the callbacks run as the functions that `Params.Params.Option` and `Params.Params.Nonoption` are proved to follow; the option string, the table of long options and the readers of times, numbers, targets, escapes, patterns and command files are parameters.
- Params.Params.Option: options that only set a flag (verbosity, logging, keys, character set, print details) have no effect on the settings modelled.
- CRW and CIFF trees, maker notes, other image types, tag printing, localisation and the actions themselves.
