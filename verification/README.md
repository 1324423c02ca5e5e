# A model of the tar reader and writer

This project models `libtarport`, a small `tar`: a writer that turns the entries of a directory walk into a stream of
512-byte blocks, a reader that turns such a stream back into members and unpacks them, and the helper loops both rest
on. It proves what the two halves promise each other and what each keeps over every run.

The format is the ustar Interchange Format with pax Extended Headers (IEEE Std 1003.1-2017, `pax` utility, EXTENDED
DESCRIPTION) plus the GNU base-256 numbers. The build that is modelled is the one the sources select: 32-bit Windows,
old-Sun checksums accepted, no GNU long names.

`dafny verify dfyconfig.toml` checks everything.

## How it is built

Each operation of the program is a method over the state it updates: a header block is an `array<byte>` that is filled
and destroyed in place, a descriptor is an object with a position, the archive handle, the tarball record, the file
header and the file system are objects. Every such method is proved against a function, and the promises of the
program are theorems about those functions.

| file | contents |
|---|---|
| `Bytes.dfy`, `Numbers.dfy`, `Masks.dfy`, `Names.dfy` | C strings, octal and base-256 fields, C integer widths, bit masks, unsafe prefixes and in-place copying |
| `Streams.dfy` | descriptors with short and failing transfers, full reads and writes, the copy loop, seeking |
| `Header.dfy`, `HeaderBlock.dfy` | checksum, destructive decoding, classification of a block; the block the writer emits and its round trip |
| `Writer.dfy`, `Archive.dfy` | hard-link table, one visit, whole archives: size and link theorems |
| `Walk.dfy`, `TarWriter.dfy` | the directory walk with the archiver as its visitor, `writeTarFile`, and which failures it reports |
| `Pax.dfy` | length parsing and the record walk |
| `FileSystem.dfy`, `Extract.dfy`, `LastWriter.dfy` | `bb_make_directory`, `data_extract_all`, and what unpacking leaves behind |
| `Reader.dfy`, `TarReader.dfy` | the reader as a state machine, and `get_header_tar` with its loop as methods that follow it |
| `ReaderLaws.dfy`, `OtherWriters.dfy`, `Wire.dfy` | laws of the reader on any stream; what it makes of headers and pax extensions that some other program wrote; what this writer's archives look like, byte by byte |
| `RoundTrip.dfy`, `TreeTrip.dfy`, `EndToEnd.dfy` | the whole-archive round trip, a directory tree put back into a file system, both programs one after the other |

Conventions:

- Functions that report an error and do not return (`bb_error_msg_and_die` and its kin, which are empty stubs in the
  sources although every caller relies on them) end the run: `Fate`, with the reason.
- `off_t` is a signed 32-bit `long`, `uid_t`/`gid_t` have 16 bits, `time_t` 64. Conversions of decoded numbers wrap as
  they do there. Positions, offsets and sums are mathematical integers.
- A read or write transfers any number of bytes between one and what was asked for. It reports an error only on a
  stream that is marked faulty, and then whenever it likes. A `System` (file system) that is marked reliable fails only
  when it must; any other may fail at will.
- A file system maps paths, as lists of components, to files and directories; "." and repeated slashes do not count.
- Bit masks are written as remainders and quotients; `BlockMask`, `ModeMask` and `OwnerMask` tie them to the bitwise
  operations on the same numbers.

## What does not hold, and exactly when it does

- The stored time is the clamped time only while it is below 2^32, because it passes through `off_t`
  (`RoundTrip.TimeKeptExactly`, `RoundTrip.FirstTimeLost`).
- What the writer emits comes back as it was written exactly if its name and its type survive
  (`RoundTrip.EntryReadsBackExactly`). A file whose name ends in a slash comes back as a directory, a directory whose
  last component is ".." loses its name, a FIFO loses its type, and a hard link to anything but a regular file becomes
  one (`RoundTrip.SlashedFileIsDirectory`, `RoundTrip.DotDotLosesItsName`, `RoundTrip.FifoLosesItsType`,
  `RoundTrip.LinkToDeviceIsFile`). A whole archive comes back exactly if every archived entry is of the kind that does
  (`RoundTrip.ArchiveRoundTrip`).
- No stream makes the reader hand on a name that starts with a slash or has a ".." component before its last one
  (`Reader.DeliveredNamesAreSafe`); a last component ".." is handed on (`RoundTrip.LastDotDotIsDelivered`).
- The byte count of the reader equals the stream position exactly as long as no member had a negative size
  (`Reader.CountIsPosition`); `RoundTrip.NegativeSizeIsDelivered` gives a stream for every size below zero.
- A visit that fails below a directory is not reported, and a path where nothing is or a directory that cannot be
  listed is reported although no visit failed (`TarWriter.FailureBelowIsSilent`, `TarWriter.SilentWalksAreReported`).
  What is reported about a path agrees with its visits exactly if there is something at the path and, if that is a
  directory, it can be listed and everything below it can be archived (`TarWriter.RootReportsExactly`).
- Archiving a tree and extracting it where nothing is in its way puts back what was archived
  (`TreeTrip.TreeIsReplanted`); what was dropped is not there. This is for trees from which no FIFO or device gets into
  the archive, as those end the extraction. The whole tree comes back as it was, provided nothing that was dropped is
  there already, exactly if every entry was archived and is no further name of a hard-linked file that is not empty, or
  is a directory on the way to another entry (`TreeTrip.TreeComesBackExactly`, `TreeTrip.SecondNameIsEmptied`,
  `TreeTrip.UnreadableIsLost`).
- A hard link may name a member that is not in the archive: a name is recorded before it is known whether the entry
  will be dropped (`Archive.DroppedRecorderBreaksLink`). It resolves exactly if the recorded entry was kept or the file
  is a member under the same name from a visit at which it had one link only (`Archive.LinkResolvesExactly`,
  `Archive.NamesakeResolves`). While the visits of a file agree on whether it has more than one link, the recorded
  entry alone decides (`Archive.LinkResolvesIfConsistent`).
- After a negative size the next header is looked for in the wrong place, except for multiples of 256
  (`ReaderLaws.AfterNegativeSize`). An extension header of a negative size ends the run, unless it is one of less than a
  block, which counts as empty (`OtherWriters.NegativeExtensionIsFatal`, `OtherWriters.SmallNegativeExtension`).
- The unsigned checksum notices every change of a single byte (`OtherWriters.CorruptionIsNoticed`), but a block whose name
  and prefix both start with a NUL counts as empty before its checksum is looked at.
- The cursor of the pax walk stays inside the payload except for lengths that exceed what is left by more than 2^31
  (`Pax.WalkOutcome`, `Pax.WrappingLength`).

Where comments and code differ the code is followed: `xopen3` is said to die but returns -1, so a file that cannot be
created is read past; hard links are unpacked as empty files because the `link` call is not compiled; the test for the
"ustar" magic is not compiled either.

## Model

| member | source | states |
|---|---|---|
| Numbers.PutOctal | libtarport/tar.cpp:24-42 | the field holds the last `len` octal digits of the value as an unsigned long, one leading zero traded for a NUL; nothing else changes; the scratch buffer is large enough |
| Numbers.GetOctal | libtarport/get_header_tar.cpp:3-49 | the value is that of the field alone, base-256 loop included; only the byte after the field is lost |
| Numbers.OctalRoundTrip | libtarport/tar.cpp:24-42 | reading a written field gives the value modulo 8^len, hence the value if it fits, also in full-width fields without terminator |
| Numbers.OctalFieldText | libtarport/tar.cpp:24-42 | a written field is octal digits and a NUL, or digits only if its first place is not zero |
| Numbers.StrToDigits | libtarport/get_header_tar.cpp:13 | the conversion reads a run of digits up to the first other character |
| OtherWriters.OctalFieldIsRead | libtarport/get_header_tar.cpp:13-21 | white space, octal digits, then a NUL, a blank or the end of the field: the field is read as the number the digits show |
| OtherWriters.NegativeTextIsRead | libtarport/get_header_tar.cpp:8-21 | a minus sign in front is taken, and the number is read as 2^64 less |
| OtherWriters.BlankFieldIsZero | libtarport/get_header_tar.cpp:8-21 | a field that starts with a blank and holds no number is read as zero |
| OtherWriters.GarbledIsRefused | libtarport/get_header_tar.cpp:21-24 | a field without its top bit set that starts with a character no number starts with, or whose digits are followed by something else, is corrupt |
| OtherWriters.DenotedIsRead | libtarport/get_header_tar.cpp:4-49 | octal or base-256: the number a field stands for is read modulo 2^64 |
| Numbers.OffTKeepsLowBits | libtarport/get_header_tar.cpp:308 | a size that is narrowed keeps its 32 low bits, and is unchanged if it fits |
| Numbers.TopBitIsBase256 | libtarport/get_header_tar.cpp:21-48 | a field with its top bit set is read as base-256 modulo 2^64, whatever follows |
| Numbers.Base256Turn | libtarport/get_header_tar.cpp:45-46 | one turn of the 64-bit loop keeps the signed value of the prefix read so far |
| Numbers.Base256RoundTrip | libtarport/get_header_tar.cpp:25-46 | every number that fits the field's two's complement is read back modulo 2^64, every signed 64-bit time exactly |
| Names.StripUnsafePrefix | libtarport/get_header_tar.cpp:53-80 | the scan ends behind the last ".." component that a slash follows and behind the slashes after it |
| Names.StripMeetsSpecification | libtarport/get_header_tar.cpp:53-80 | only unsafe components and slashes are cut, what is left is safe, and no other cut has these properties |
| Names.StripIdempotent | libtarport/get_header_tar.cpp:444-445 | a stripped name never starts with a slash or "../" nor contains "/../"; stripping it again changes nothing; a name is left alone exactly if it is safe |
| Names.TrailingSlashSafe | libtarport/tar.cpp:216-218 | appending the slash of a directory keeps a name safe exactly if it does not end in ".." |
| Names.OverlappingStrcpy | libtarport/safe_strncpy.cpp:5-16 | copying left inside one buffer delivers the string that was at the source |
| Names.ConcatPathFile | libtarport/concat_path_file.cpp:4-14 | prefix and name are joined by exactly one slash where the prefix does not end in one |
| Streams.Source.FullRead | libtarport/xfuncs.cpp:192-218 | any sequence of short reads fills the buffer with the next bytes; it comes back short only at the end or on an error |
| Streams.Source.XRead | libtarport/xfuncs.cpp:221-228 | all bytes or death; no death while enough bytes are there and reads do not fail |
| Streams.Sink.FullWrite | libtarport/full_write.cpp:3-28 | any sequence of short writes appends the buffer in order; a short count means an error |
| Streams.Sink.XWrite | libtarport/xfuncs.cpp:115-122 | all bytes are appended or the program dies |
| Streams.FullFdAction | libtarport/copyfd.cpp:3-61 | source advances by the count returned, destination gets a prefix of those bytes, all of them without write errors; short only at the end; a negative size goes on after a write error |
| Streams.CopyFdExactSize | libtarport/copyfd.cpp:63-80 | success moves the source by exactly the absolute size and the destination by exactly those bytes; what each way of dying means |
| Streams.SeekByRead | libtarport/seek_by_read.cpp:3-7 | consumes the amount, dies if it is not there |
| Streams.SeekByJump | libtarport/seek_by_jump.cpp:3-12 | moves by the amount on a seekable stream, consumes it on a pipe |
| Streams.SeekStrategiesAgree | libtarport/seek_by_jump.cpp:3-12 | both strategies end at the same position whenever enough bytes remain |
| Header.VerifyChecksum | libtarport/get_header_tar.cpp:251-281 | the two loops around the field compute the unsigned and signed sums of the block with eight blanks in place of the checksum; accepted exactly if the stored number ends in a NUL or a blank and is one of the two |
| OtherWriters.AcceptedExactly | libtarport/get_header_tar.cpp:251-281 | a stored octal number, blanks before it or not, is accepted if and only if it is the unsigned or the signed byte sum with blanks in the field |
| OtherWriters.OnlySumsAreAccepted | libtarport/get_header_tar.cpp:271-281 | a block that is neither empty nor refused for its checksum stores one of the two sums |
| OtherWriters.CorruptionIsNoticed | libtarport/get_header_tar.cpp:271-281 | in a block that stores its unsigned sum, any change of any one byte outside the checksum makes the checksum invalid, and the block is refused unless it has come to look empty |
| OtherWriters.WrittenHeaderIsProtected | libtarport/tar.cpp:44-68 | so every header this program writes is protected against a change of one byte |
| OtherWriters.EmptyChecksumIsRefused | libtarport/get_header_tar.cpp:267-281 | eight NULs as checksum are accepted exactly if the signed sum happens to be zero |
| Header.XStrNDup | libtarport/xfuncs.cpp:230-252 | the copy is the C string that starts the field |
| Header.DecodeDevice | libtarport/get_header_tar.cpp:289-296 | both device numbers are those of the untouched fields and prefix[0] is put back |
| Header.DecodeNumbers | libtarport/get_header_tar.cpp:307-312 | read in this order each numeric field has its untouched value, with the width of its C type |
| Header.DecodeFields | libtarport/get_header_tar.cpp:284-326 | the destructive decoding of a block gives exactly what decoding every field of the untouched block would; what that is is stated by OtherWriters.MemberIsRead |
| OtherWriters.MemberIsRead | libtarport/get_header_tar.cpp:283-456 | a sound block with flag NUL or '0' to '7' is the member its bytes describe: low 12 bits of the mode, 16 of the ids, time, link name, the size for regular files only, type bits by the flag and a final slash, prefix and name joined, stripped and without its last slash |
| OtherWriters.PrefixComesFirst | libtarport/get_header_tar.cpp:319-323 | prefix P and name N, where P/N is safe, are delivered under the name P/N |
| OtherWriters.JoinedByOneSlash | libtarport/concat_path_file.cpp:4-14 | slashes that start the name and one that ends the prefix come to one slash |
| OtherWriters.UnknownTypeIsFatal | libtarport/get_header_tar.cpp:410-430 | every flag but NUL, '0' to '7', 'g' and 'x' is fatal |
| OtherWriters.GarbledNumberIsFatal | libtarport/get_header_tar.cpp:21-24 | a sound block with a corrupt number in any of its numeric fields is fatal |
| OtherWriters.DeviceIsMade | libtarport/get_header_tar.cpp:289-296 | major 8 and minor 1 make device 0x801; without a major number the device stays |
| Header.SumAppend | libtarport/get_header_tar.cpp:254-266 | byte sums of parts add up, so the split-range sum is the sum of the block |
| Header.ModeMask | libtarport/get_header_tar.cpp:312 | masking the permission and the type bits of a mode, bit by bit, is the arithmetic of the model |
| HeaderBlock.LayoutIsPlain | libtarport/archive.h:76-98 | the field layout determines the block |
| HeaderBlock.PlainHasLayout | libtarport/archive.h:76-98 | the block the writer builds has every field at its offset |
| HeaderBlock.ChecksumAgrees | libtarport/tar.cpp:44-68 | for any contents the sum is below 8^6, the stored field is six digits, NUL, blank, and the reader finds and accepts that sum |
| HeaderBlock.AcceptedWhenStored | libtarport/get_header_tar.cpp:267-281 | a block that stores its unsigned sum in octal followed by a NUL is accepted |
| HeaderBlock.BlockDecodes | libtarport/get_header_tar.cpp:287-326 | decoding an emitted block gives back name, mode, owner, size, time and link name |
| HeaderBlock.HeaderRoundTrip | libtarport/get_header_tar.cpp:207-428 | an emitted header is classified as the member its fields and type flag describe |
| Writer.PaddingsAgree | libtarport/tar.cpp:387 | the writer's mask, the reader's alignment and the pax rounding all compute the least number of bytes that completes a block |
| Writer.BlockMask | libtarport/get_header_tar.cpp:89 | `& 511` and rounding up with `& ~511`, bit by bit on the 32-bit word, are the arithmetic of the model, negative numbers included |
| Writer.FillCommon | libtarport/tar.cpp:162-172 | name, mode, owner, a zero size and the clamped time at their offsets, the rest zero |
| Writer.ChksumAndXWrite | libtarport/tar.cpp:44-68 | magic and checksum complete the header and the block is appended to the archive |
| Writer.StoreChecksum | libtarport/tar.cpp:64 | storing the sum turns the blank field into the stamped one |
| Writer.AppendSlash | libtarport/tar.cpp:216-218 | the name field holds the name with its slash |
| Wire.HeaderOnTheWire | libtarport/tar.cpp:44-282 | every field of an emitted header in plain bytes: name and slash, octal fields, a size for regular files only, type flag, the eight bytes of the magic, six digits, NUL and blank of the checksum, zeroes |
| Wire.LinkOnTheWire | libtarport/tar.cpp:180-184 | the link name is stored as far as it fits, and only a link has one |
| Wire.WrittenHasLayout | libtarport/tar.cpp:157-282 | an emitted header is one of the blocks that OtherWriters describes |
| Wire.PaddingOnTheWire | libtarport/tar.cpp:365-390 | behind every body stand its bytes and then zeroes up to the next header |
| Wire.TrailerOnTheWire | libtarport/tar.cpp:423-425 | the archive ends in exactly 1024 zeroes behind the last entry |
| Writer.TarBallInfo.WriteTarHeader | libtarport/tar.cpp:157-282 | exactly the header for the entry is appended, or nothing for an unknown type |
| Writer.TarBallInfo.FindHardLinkInfo | libtarport/tar.cpp:143-155 | the list walk finds the first node for the device and inode, or none |
| Writer.TarBallInfo.AddHardLinkInfo | libtarport/tar.cpp:127-141 | one node in front of the list |
| Writer.TarBallInfo.TrackLink | libtarport/tar.cpp:314-324 | the table grows only by a tracked file that was not in it |
| Writer.TarBallInfo.WriteBody | libtarport/tar.cpp:365-390 | exactly the body and zeroes up to the next block are appended, or the program dies: of a short file, of a read error or of a write error |
| Writer.TarBallInfo.WriteEntry | libtarport/tar.cpp:329-392 | archive itself, long name, unreadable file, header, body: the entry's emission and nothing else is appended |
| Writer.TarBallInfo.WriteFileToTarball | libtarport/tar.cpp:284-395 | emission and hard-link table of one visit; a directory never reports failure |
| Archive.VisitNext | libtarport/tar.cpp:284-395 | whenever the visitor is called, in the middle of whatever walk, table and archive are afterwards those of the visits so far and this one |
| TarWriter.WriteTarFile | libtarport/tar.cpp:396-439 | a finished run has appended the archive of the visits of all walks in order, and reports an error exactly if the walk over some path failed; it dies only of a write error or a file that cannot be read to its end |
| TarWriter.VisitsAppend | libtarport/tar.cpp:413-420 | the paths are walked in the order they are given |
| TarWriter.TarArchive | libtarport/tar.cpp:480-518 | the archive is that of the visits below the one path; an error is reported exactly if nothing is there, the path's own visit fails, or its listing does |
| TarWriter.FailedExactly | libtarport/tar.cpp:334-343 | the visits that fail: a regular file that does not open, or a type without a header, unless it is dropped or a link |
| TarWriter.RootReportsExactly | libtarport/recursive_action.cpp:33-143 | a walk reports whether some visit failed if and only if there is something at the path and, if it is a directory, it can be listed and everything below can be archived |
| TarWriter.FailureBelowIsSilent | libtarport/recursive_action.cpp:96-98 | a directory with a file that cannot be opened: the visit fails, no error is reported |
| TarWriter.SilentWalksAreReported | libtarport/recursive_action.cpp:33-86 | a missing path and a directory that cannot be listed: errors without a failed visit |
| Archive.SizeConservation | libtarport/tar.cpp:365-425 | before every header the archive is a multiple of 512; its final length is 512 times the members plus two, plus the bodies rounded up |
| Archive.TableKeysDistinct | libtarport/tar.cpp:127-141 | on every run the table has distinct keys and only grows in front |
| Archive.InsertOnce | libtarport/tar.cpp:316-324 | one visit adds its own key if it is new and changes no other lookup |
| Archive.TableIsFirstSeen | libtarport/tar.cpp:143-155 | on every run a lookup gives the stripped name of the first tracked visit of that file |
| Archive.LinkHasRecorder | libtarport/tar.cpp:180-184 | every hard-link header carries the name of an earlier visit of the same file, which is in the archive exactly if it was kept and is then no link itself |
| Archive.LinkResolves | libtarport/tar.cpp:314-358 | if no recorded entry is dropped every link names an earlier non-link member of the same file |
| Archive.LinkResolvesExactly | libtarport/tar.cpp:314-358 | a link resolves if and only if the entry recorded for its file was kept, or the file was archived under the same name when it had one link only |
| Archive.LinkResolvesIfConsistent | libtarport/tar.cpp:314-358 | if the visits of a file agree on whether it is tracked, a link resolves if and only if the recorded entry was kept |
| Archive.NamesakeResolves | libtarport/tar.cpp:314-358 | three visits for which a link resolves although the recorded entry was dropped |
| Archive.DroppedRecorderBreaksLink | libtarport/tar.cpp:320-343 | two visits for which the link does not resolve |
| Pax.HandleErrors | libtarport/bb_strtonum.cpp:13-26 | value and errno by the character the number stopped at |
| Pax.BbStrtou | libtarport/bb_strtonum.cpp:68-103 | value, end and errno are the meaning of the text, which LengthTexts and NoLengthAtAll spell out |
| Pax.LengthTexts | libtarport/bb_strtonum.cpp:13-103 | digits and what follows them: a NUL gives no error, another terminator EINVAL, a letter or a value of 2^32 and more ERANGE with all bits set |
| Pax.NoLengthAtAll | libtarport/bb_strtonum.cpp:68-103 | a text that starts with neither letter nor digit is ERANGE, and nothing of it is taken |
| Pax.ClaimedExactly | libtarport/bb_strtonum.cpp:68-103 | a length is taken exactly when decimal digits with a value below 2^32 stand right before a blank |
| Pax.WrapTest | libtarport/get_header_tar.cpp:106-108 | what the sign test on the 32-bit difference rejects |
| Pax.WalkRecords | libtarport/get_header_tar.cpp:94-146 | the walk ends as the payload's records say; a NUL is stored just before every cursor position but the first, and nowhere else |
| Pax.WalkOutcome | libtarport/get_header_tar.cpp:108-117 | it ends well exactly if nothing is left over, and leaves the payload exactly if the length it stops at exceeds the rest by more than 2^31 |
| Pax.WrappingLength | libtarport/get_header_tar.cpp:106-108 | a payload on which the cursor would leave |
| Pax.WellFormedIsWalked | libtarport/get_header_tar.cpp:97-146 | any concatenation of "LEN NAME=VALUE" records is walked to its end, stopping at the record boundaries only |
| FileSystem.Bypass | libtarport/make_directory.cpp:22-33 | the inner loops stop behind the next run of slashes |
| FileSystem.AdjustMask | libtarport/make_directory.cpp:36-58 | for an intermediate directory the umask in force is that of entry without the owner's write and search bits, for the last component that of entry |
| FileSystem.TryMkDir | libtarport/make_directory.cpp:60-79 | going on means the path is a directory |
| FileSystem.MakeDirectory | libtarport/make_directory.cpp:3-111 | on every exit the umask is that of entry; every directory on the way was made with owner write and search let through, the last component with the entry mask; on success the buffer is unchanged and every slash-delimited prefix is a directory; on failure the buffer is cut in one place; nothing in the file system is lost |
| FileSystem.ComponentsSplit | libtarport/make_directory.cpp:22-33 | a path splits at any slash into the components before and after it |
| FileSystem.OwnerMask | libtarport/make_directory.cpp:44 | `& ~0300`, bit by bit, is the arithmetic of the model |
| Masks.ShiftedMask | libtarport/get_header_tar.cpp:312 | a mask that starts at bit k works on the number without its k low bits |
| LastWriter.MakeDirsAdds | libtarport/make_directory.cpp:18-98 | on a path with no file in the way exactly the missing directories are made |
| Extract.CreateLeadingDirs | libtarport/data_extract_all.cpp:20-27 | the name is put back unless the directories could not be made, and the file system is that of the leading directories |
| Extract.DataExtractAll | libtarport/data_extract_all.cpp:3-222 | every surviving exit has consumed exactly the member's body; a reliable file system ends up as unpacking that member says |
| Extract.ExtractFile | libtarport/data_extract_all.cpp:103-128 | a created file holds the body; one that cannot be created has its body read past |
| LastWriter.OneFile | libtarport/data_extract_all.cpp:20-128 | unpacking a file makes its ancestors and replaces what was there by the body |
| LastWriter.OneDirectory | libtarport/data_extract_all.cpp:129-144 | unpacking a directory makes it and its ancestors, as far as they are missing |
| LastWriter.OneSelfLink | libtarport/data_extract_all.cpp:34-46 | unpacking a hard link to its own name makes its ancestors and nothing else |
| LastWriter.SelfLinkKeepsEverything | libtarport/data_extract_all.cpp:34-46 | a regular member of size 0 whose link target is its own name: the run survives, every path holds what it held, and nothing is added if the leading directories are there |
| LastWriter.DirectoryInPlaceIsFatal | libtarport/data_extract_all.cpp:49-53 | a directory at the place of anything but a directory ends the extraction |
| LastWriter.FileInTheWayIsFatal | libtarport/data_extract_all.cpp:20-53 | so does a file at the place of one of its leading directories, and nothing that was there is lost |
| LastWriter.NameStaysCut | libtarport/data_extract_all.cpp:21-26 | when the leading directories cannot be made the name the extraction goes on with is cut: of "f/g/h" with a file "f", "f/" is left |
| LastWriter.NamelessChangesNothing | libtarport/data_extract_all.cpp:20-144 | a file or directory member whose name was stripped away changes nothing |
| LastWriter.LastWriterWins | libtarport/data_extract_all.cpp:20-144 | after any list of files, hard links (which unpack as empty files), hard links to their own name (which change no file) and directories, with nothing in their way, every file's name holds its last body, the directories and missing ancestors exist, everything else is unchanged |
| TarReader.SpecialMembersAreFatal | libtarport/data_extract_all.cpp:102-174 | a symbolic link, device or FIFO member ends the extraction whatever the file system holds |
| Reader.TurnMoves | libtarport/get_header_tar.cpp:178-205 | a block that is followed by another has consumed at least 512 bytes and none past the end |
| Reader.SeekingIsIrrelevant | libtarport/tar.cpp:464-470 | jumping and reading give the same headers |
| Reader.PositionInvariant | libtarport/get_header_tar.cpp:173-468 | a decoded header moves count and position alike, through alignment, pax and extension blocks, empty and skipped bodies; a negative size adds twice its amount |
| Reader.CountIsPosition | libtarport/get_header_tar.cpp:205-468 | over every run count equals position exactly if no delivered size was negative |
| Reader.FlagFollowsBlock | libtarport/get_header_tar.cpp:208-220 | the flag remembers exactly an empty block, which delivers nothing and ends the run only after another |
| Reader.EndOfArchive | libtarport/get_header_tar.cpp:208-219 | a run ends normally exactly at the first two header blocks in a row that are empty, and they are adjacent |
| ReaderLaws.RunMovesAlong | libtarport/get_header_tar.cpp:173-478 | whole blocks in front of a stream, once passed, make no difference to what is delivered behind them |
| ReaderLaws.CuttingIsNoticed | libtarport/get_header_tar.cpp:178-205 | a stream that is cut off delivers the first of its members only, the last perhaps with its body cut, and dies of it unless it ended before |
| ReaderLaws.BadBlockEndsRun | libtarport/get_header_tar.cpp:247-430 | a block that is not sound ends the run, and nothing more is delivered |
| ReaderLaws.FilterDecides | libtarport/get_header_tar.cpp:444-468 | a member is handed on or passed over by its stripped name before the final slash is cut |
| ReaderLaws.CountDecidesBlock | libtarport/data_align.cpp:4-10 | the next header is looked for where the count, not the position, is a multiple of 512 |
| ReaderLaws.AfterNegativeSize | libtarport/data_align.cpp:4-10 | behind a member of size -n it is looked for n % 512 bytes further on, which completes a block exactly if n is a multiple of 256 |
| Wire.CutArchiveIsNoticed | libtarport/tar.cpp:396-478 | an archive of this program that is cut off anywhere never ends normally |
| TarReader.ArchiveHandle.DataAlign | libtarport/data_align.cpp:4-10 | stream and count move to the next block boundary of the count |
| TarReader.ArchiveHandle.DataSkip | libtarport/data_skip.cpp:3-6 | moves over the member's body |
| TarReader.ArchiveHandle.ProcessPaxHdr | libtarport/get_header_tar.cpp:84-149 | the payload it is told of is read in whole blocks, counted and walked; how long it is and where the next header stands is stated by OtherWriters.ExtensionIsPassedOver |
| TarReader.ArchiveHandle.SkipExtHdr | libtarport/get_header_tar.cpp:417-428 | stream and count advance by the size rounded up; a negative count runs into the end of the stream |
| OtherWriters.ExtensionIsPassedOver | libtarport/get_header_tar.cpp:84-149 | an 'x' or 'g' header whose size field says n <= 0xfffff, then n bytes whose walk stays inside, well formed or not: nothing is delivered and the next header is looked for behind the least padding of n |
| OtherWriters.LargeExtensionIsPassedOver | libtarport/get_header_tar.cpp:412-428 | the same for a larger one, whatever it holds |
| OtherWriters.SmallNegativeExtension | libtarport/get_header_tar.cpp:412-428 | one with a size between -511 and -1 has no payload |
| OtherWriters.NegativeExtensionIsFatal | libtarport/get_header_tar.cpp:417-428 | one with a size of -512 or less runs into the end of the stream |
| OtherWriters.ShortExtensionIsFatal | libtarport/get_header_tar.cpp:91-92 | one whose payload and padding are not there is fatal |
| OtherWriters.ExtensionInFront | libtarport/get_header_tar.cpp:410-416 | an extension in front of any stream makes no difference to what is delivered and how the run ends |
| OtherWriters.ArchiveBehindExtensions | libtarport/get_header_tar.cpp:410-416 | any number of extensions in front of an archive of this program: exactly the archived entries are delivered and the run ends normally |
| Wire.ExtensionFor | libtarport/get_header_tar.cpp:84-149 | there is such an extension for every payload of up to 0xfffff bytes whose walk stays inside |
| TarReader.ArchiveHandle.SetName | libtarport/get_header_tar.cpp:444-445 | the name buffer ends up with the stripped name |
| TarReader.DropLastSlash | libtarport/get_header_tar.cpp:449-456 | the string in the buffer loses one trailing slash, if it has one |
| TarReader.ArchiveHandle.Drain | libtarport/get_header_tar.cpp:213-214 | the rest of the stream is read |
| TarReader.DecodeBlock | libtarport/get_header_tar.cpp:247-326 | checksum and decoding classify the block as the untouched bytes do |
| TarReader.ArchiveHandle.TakeMember | libtarport/get_header_tar.cpp:444-477 | the member is handed on once with its body, or skipped, and the count follows |
| TarReader.ArchiveHandle.TakeBlock | libtarport/get_header_tar.cpp:178-477 | one block is handled as the state machine says |
| TarReader.ArchiveHandle.GetHeaderTar | libtarport/get_header_tar.cpp:152-478 | one call follows the state machine, whose steps on any given bytes OtherWriters and ReaderLaws describe; the difference of count and position is kept exactly if the size is not negative |
| TarReader.EndedNeedsFlag | libtarport/get_header_tar.cpp:209-218 | the end is reported only after an empty block |
| TarReader.TarExtract | libtarport/tar.cpp:441-478 | the deliveries of a run are those of the state machine, the files are those of unpacking them, every name handed on is safe, and a normal end reports success |
| Reader.DeliveredNamesAreSafe | libtarport/get_header_tar.cpp:444-456 | whatever the stream holds, no member is handed on with an absolute name or with a ".." component before the last |
| RoundTrip.HeaderIsReadAs | libtarport/get_header_tar.cpp:287-456 | every header the writer emits, of whatever type, is read as the member ReadAs describes |
| RoundTrip.EntryReadsBackExactly | libtarport/tar.cpp:157-282 | for everything the writer emits: name, type, masked mode, owner, time, size and link target come back if and only if name and type survive |
| RoundTrip.FifoLosesItsType | libtarport/tar.cpp:231-232 | a FIFO is read back without type bits |
| RoundTrip.LinkToDeviceIsFile | libtarport/tar.cpp:180-184 | a second name of a character device is read back as a regular file |
| RoundTrip.LastDotDotIsDelivered | libtarport/get_header_tar.cpp:53-80 | a stream from which the name ".." is handed on |
| RoundTrip.SlashedFileIsDirectory | libtarport/tar.cpp:233-241 | a file whose name ends in a slash is read back as an empty directory |
| RoundTrip.DotDotLosesItsName | libtarport/get_header_tar.cpp:444-445 | a directory named ".." is read back without a name |
| RoundTrip.NegativeSizeIsDelivered | libtarport/get_header_tar.cpp:468 | for every body there is a header that gives it the negated size, in base-256; the reader delivers it and its count is then off by twice the length |
| RoundTrip.TimeKeptExactly | libtarport/tar.cpp:172 | the stored time is the clamped time if and only if it is below 2^32 |
| RoundTrip.InPlace | libtarport/tar.cpp:355-390 | header and body of every entry stand at the length of the archive before it |
| RoundTrip.OneMember | libtarport/get_header_tar.cpp:173-477 | at the start of an entry the reader delivers one member; if the entry is portable it is that entry, body included, and the reader stops behind the body, otherwise it is another |
| RoundTrip.ArchiveRoundTrip | libtarport/tar.cpp:396-478 | the extraction loop on a finished archive delivers exactly the archived entries in order and ends normally, if and only if all of them are portable |
| Walk.RecursiveAction | libtarport/recursive_action.cpp:12-143 | with the archiver as visitor the visits made are the preorder, the archive and the table follow them, and failure is reported exactly if nothing is there, the entry's own visit fails, or its listing does |
| Walk.WalkIsPreorder | libtarport/recursive_action.cpp:56-99 | exactly the reachable entries are visited, each once, a directory before what lies below it, nothing below one whose visitor answered FALSE or SKIP; what is reached in a directory is every child not named "." or ".." |
| Walk.ChildIsVisited | libtarport/recursive_action.cpp:87-99 | in a directory that is entered every child that is there is visited, hidden ones included, unless its name is exactly "." or ".." |
| Walk.DotsAreSkipped | libtarport/concat_subpath_file.cpp:4-9 | a listing of nothing but "." and ".." gives no visits |
| Walk.SiblingsInOrder | libtarport/recursive_action.cpp:87-99 | children are walked in the order of the listing |
| Walk.AnswersDecide | libtarport/recursive_action.cpp:69-86 | FALSE of the visitor is failure, SKIP is success without looking below, TRUE fails exactly if nothing is listed |
| Walk.ChildPath | libtarport/concat_subpath_file.cpp:4-9 | the path of a child is its directory's path, one slash, its name |
| TreeTrip.StripChild | libtarport/get_header_tar.cpp:53-80 | stripping the path of a child leaves the stripped path of its directory and the child's name |
| TreeTrip.PlaceOf | libtarport/tar.cpp:294 | every entry of a tree goes to the place of the root followed by its own path |
| TreeTrip.TreeIsUnpackable | libtarport/data_extract_all.cpp:20-144 | nothing in the archived part of a tree is in the way of the rest of it, and nothing in a file system where it fits |
| TreeTrip.EmptyFits | libtarport/data_extract_all.cpp:20-144 | every tree that can be archived fits into an empty file system |
| TreeTrip.TreeIsReplanted | libtarport/tar.cpp:441-518 | whatever part of a tree is archived is there again once it is extracted where it fits: every directory, every file with its body, further names of a file empty, the way to them made, everything else unchanged |
| TreeTrip.DroppedIsAbsent | libtarport/tar.cpp:334-347 | what was dropped is not brought back, except a directory on the way to an archived entry |
| TreeTrip.TreeComesBackExactly | libtarport/data_extract_all.cpp:84-100 | the tree comes back with every file's own content if and only if each entry was archived and is no further name of a file with content, or is a directory on the way |
| TreeTrip.UnreadableIsLost | libtarport/tar.cpp:334-343 | a directory with a file that cannot be opened, which is not brought back |
| TreeTrip.SecondNameIsEmptied | libtarport/data_extract_all.cpp:84-100 | a directory with two names of one file, of which the second comes back empty |
| EndToEnd.ArchiveThenExtract | libtarport/tar.cpp:441-518 | extracting what was archived at a path delivers what was archived exactly if all of it is portable; with nothing in its way the archived part of the tree is put back, files and directories |
| EndToEnd.OutcomeIsDetermined | libtarport/tar.cpp:474-477 | without input or output errors the outcome depends on the data only |
| EndToEnd.FileAndPipeAgree | libtarport/tar.cpp:464-470 | an archive gives the same members, the same end and the same files from a file and from standard input |

## Left out

- Walk.RecursiveAction: ACTION_DEPTHFIRST, ACTION_DANGLING_OK and the link-following flags, which the program does not set, are not modelled; the answer the visitor gives for a directory is a parameter, and nothing but the archiver is its visitor.
- Reader.CountIsPosition: offsets are mathematical integers, so the overflow of a 32-bit `off_t` beyond 2 GiB is not modelled, nor is that of `size + 511`.
- TarReader.ArchiveHandle.TakeMember: the filter is a set of rejected names; both filters of the program accept everything.
- FileSystem.MakeDirectory: which permissions a new directory gets is not modelled; the umask is.
- Header.VerifyChecksum: bytes behind the header block, which the conversion could run into when the block ends in digits, count as a terminator.
- Ownership, `chmod`, `utimes`, device numbers on the write side, socket and link entries that this build does not compile.
- Opening and closing of descriptors, `xopen` failing for the archive itself, text-mode translation, the EINTR retries, allocation failure, the internals of `xasprintf`.
- Console output, verbose listings, `action_header`, the warn-once flag of `strip_unsafe_prefix`.
- Code that is compiled out: GNU long names, SELinux, user and group names, autodetection, the magic test.
- Error codes and file types are those of POSIX (`unlink` below a file reports ENOTDIR, `S_IFIFO` is defined); the C library of the Windows build may report other codes, and its `S_ISFIFO` may be constantly false.
- Paths resolve textually: no symbolic links, no drive letters or backslashes, ".." is an ordinary component of the abstract file system.
- `llist.cpp`, `basename.cpp`, `dirent.cpp` and the two filters that accept everything are not modelled.
