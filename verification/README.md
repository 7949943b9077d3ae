# A verified model of the LKL FTP daemon

The daemon serves files of a library kernel over FTP. This project models, in Dafny, what its parts
promise and proves it for all inputs, all answers of the kernel and the network, and all runs:

- `Kernel.dfy`, `Handle.dfy`, `FileOps.dfy`, `FlatRun.dfy`: buffered and unbuffered file I/O
  (`fileops.c`, `filestat.c`). One 4096-byte buffer serves reading and writing; the handle is proved
  to refine a byte sequence with one position.
- `AsciiCodec.dfy`, `Transfer.dfy`: the ASCII line-ending codec, in place and chunk by chunk, and the
  two transfer loops (`utils.c`, `cmdhandler.c`).
- `SessionSpec.dfy`, `SessionRuns.dfy`, `SessionLaws.dfy`, `FtpSession.dfy`: one control connection as
  a state machine, its invariants over every run, what each command promises its client in terms of
  the system's answers alone, and the session record with its handlers and command loop
  (`worker.c`, `connection.c`, `cmdhandler.c`, `sess.c`).
- `Paths.dfy`, `HostPort.dfy`, `UniqueName.dfy`, `DirOps.dfy`, `Decimal.dfy`: the working directory,
  host-port lists, the search for an unused name, directory records, decimal numbers.
- `Apr.dfy`, `Bytes.dfy`: status codes, byte strings, C integer widths.

`dafny verify dfyconfig.toml` checks everything.

## How the environment is modelled

Every kernel and socket answer is left open: `Kernel.Descriptor` and `Transfer.DataSocket` choose it
arbitrarily and count in ghost fields what went wrong, and a session turn carries a record of answers
over which all theorems quantify. Claims that need a well-behaved environment name the counter that
has to stand still. "Undisturbed" below means that `Kernel.Descriptor.Books` is unchanged: no failure,
no short write and no interrupted read; writes may be interrupted and retried. Answers without progress (an interruption, a failed write or one of
nothing, a receive of nothing) are limited in number over a whole run by a budget that is never
refilled (`patience`, `idle`) but may be as large as one likes; the retry loops need that to end.

## Where the code falls short of its documentation

The model follows the code. In each case below the exact condition is proved.

- Entering write mode sends the kernel to the position the handle reports but leaves `filePtr` behind
  by the bytes buffered and not read (`fileops.c:383-393`). The bytes go to the right place exactly if
  nothing was unread or the handle was in step, and the handle is in step afterwards exactly if both
  hold (`SwitchToWriteKeepsFlatIff`, `DriftExample`). So the first such switch puts the handle out of
  step, and the next one writes to the wrong place: with one byte read, one written, one read and one
  written in a file of eight, the last byte lands at 10 instead of 3 (`SecondSwitchExample`). Out of
  step, positions reported are off by the drift, and a seek goes wrong exactly if it is absolute and
  answered from the buffer, or relative and passed to the kernel without leading to in front of the
  file by both counts (`SeeksAgreeIff`, `SeekFollows`, `DriftedSeekExample`).
  `Replay` carries a run through all of this as long as the bytes still go where they should.
- The answer of that seek is ignored (`fileops.c:389-390`; `IgnoredSeekFailureMovesPosition`).
- A short kernel write drops the rest of the buffer (`fileops.c:20-28`; `FlushKeepsFlatIff`).
- The result of a seek passes through a C `int` (`fileops.c:528`), and so does the length of a
  buffered write (`fileops.c:379`): `SeekKernelKeepsSyncIff`, `LargeSeekExample`, `StoredAllIff`.
- A read counts bytes it did not deliver exactly if the flush in front of it failed, and then says the
  requested count (`fileops.c:242-247`): `ReadBuffered`. A buffered write reports the full count, which
  is what it accepted exactly if it succeeded with less than 2^31 bytes: `WriteBuffered`.
- `fileops.h:208` says EINTR is never returned. A read returns it exactly if the handle is buffered, a
  kernel read was interrupted and no byte had been copied before: `Read`.
- An unbuffered write keeps the kernel's answer in an unsigned variable (`fileops.c:373`, `451`), so a
  failure is reported as a success of a huge count: `WriteUnbuffered`. In `lkl_file_write_full` a
  failure `-e` therefore moves pointer, rest and total back by `e`: the loop sends `e` bytes again and
  reports success. What reaches the file is the data exactly if no write failed (`FullWriteIff`,
  `FullWriteExample`, `WriteFull`). If the step leads in front of the data, the source writes from
  outside it; `overrun` marks that, and the model stops there.
- The ASCII send loop sends of each encoded block only as many bytes as were read
  (`cmdhandler.c:443-444`): a file arrives intact exactly if it has no LF (`AsWrittenIff`, `Relay`). The
  loop takes the number to send as a parameter, so that the intended version, which sends the whole
  encoded block, is covered by the same method.
- An empty chunk in the middle of an upload releases a pending CR: `ChunkingInvisibleIff`,
  `EarlyReleaseExample`.
- LIST without PORT or PASV reaches the call of `bug` that ends the process (`connection.c:364-367`,
  `cmdhandler.c:895`): `DiesIff`, `DiesExample`.
- STOU says 150 twice (`cmdhandler.c:737-746`). Its replies keep to the grammar of a transfer exactly if
  it has no argument, nothing is set up or the file does not open: `TransferReplies`, `StouExample`.
- LIST is meant to send one line per entry, but a name goes into its line as it is
  (`cmdhandler.c:834-852`) and may hold an LF. There are as many lines as entries shown exactly if no
  line listed has an LF of its own (`OneLineEachIff`), for a short listing exactly if no name shown has
  one among its first 1023 bytes (`ShortListingIff`); a file called "a\nb" takes two
  (`BrokenLineExample`).
- The host-port parser is documented to read numbers between 0 and 255 (`connection.c:96`), but it
  looks only at the digits `strtol` finds (`connection.c:122`). A token is treated as documented
  exactly if it is a decimal number or the number found is out of range (`TokenAsDocumentedIff`, for
  lists `ListAsDocumentedIff`); PORT "a,b,c,d,e,f" is taken (`LettersExample`).
- It reads a token with separators in front of it from those separators, as 0, which is right exactly
  if there are none or the token itself is read as 0 (`LeadingSeparatorIff`); PORT ",1,2,3,4,5,6" is
  taken as 0.2.3.4 (`LeadingSeparatorExample`). One separator behind the list is passed over
  (`ParseTokens`).

## Model

| member | source | states |
|---|---|---|
| Bytes.OverwriteAt | fileops.c:401-406 | which byte is where after a write at an offset, zeros in a gap included |
| Bytes.OverwriteConcat | fileops.c:395-407 | two adjacent writes are one write of both |
| Handle.FlushKeepsFlatIff | fileops.c:10-32 | a flush keeps the bytes and the position exactly when the kernel takes everything pending, and then puts the logical contents on disk |
| Handle.SwitchToWriteKeepsFlatIff | fileops.c:383-393 | from any coherent handle in read mode: entering write mode keeps contents and position exactly when nothing was unread or the handle was in step, goes to the reported position otherwise, and leaves a handle in step exactly when both hold |
| Handle.SecondSwitchExample | fileops.c:383-407 | read 1, write 1, read 1, write 1 in a file of eight: the last byte lands at the reported position 10, not at 3 |
| Handle.IgnoredSeekFailureMovesPosition | fileops.c:389-390 | a refused seek there keeps the flat file of any coherent handle exactly when no seek was needed |
| Handle.DriftExample | fileops.c:388-392 | one byte read of two, then a write: the reported position is one too far |
| Handle.SeeksAgreeIff | fileops.c:520-535 | a seek by the kernel reaches its target in step; one inside the buffer reaches it exactly when the handle was in step |
| Handle.DriftedSeekExample | fileops.c:518-535 | in the state the second write above finds: a seek to 12 answered from the buffer stands at 5, and one 100 bytes on from 3 at 110 |
| Handle.SeekKernelKeepsSyncIff | fileops.c:526-535 | from any coherent handle, in step or not, a kernel seek ends in step exactly when the offset survives the passage through an `int` |
| Handle.LargeSeekExample | fileops.c:528-529 | a seek to 2^31 moves the kernel and puts any handle in step at 0, of which one is shown, out of step |
| Handle.ReadSoFarStep | fileops.c:260-286 | successive pieces of a read make one read of consecutive file bytes |
| Handle.WriteSoFarStep | fileops.c:396-407 | successive pieces of a write make one write |
| Handle.SetPtrIsSeek | fileops.c:507-538 | setting the position changes no byte; a success ends at the target, in step unless it was answered from the buffer; a failure ends where it began |
| FileOps.LklFile.FlushLocked | fileops.c:10-32 | the whole new state, for every answer of the kernel, retries included |
| FileOps.LklFile.Flush | fileops.c:34-48 | on success every accepted byte is on disk and nothing else changed |
| FileOps.LklFile.ReadBuffered | fileops.c:234-293 | undisturbed, exactly min(requested, left) bytes however the kernel splits them; bytes never come with EOF or an error; the count differs from what was copied exactly when the flush failed, and is then the requested one; EINTR comes back exactly when a read was interrupted and nothing copied |
| FileOps.LklFile.Read | fileops.c:295-368 | the same for both kinds of handle, an unbuffered one delivering any non-empty part, failing exactly when the kernel does and never with EINTR; the error is the kernel's number, unbuffered its negative |
| FileOps.LklFile.WriteBuffered | fileops.c:375-412 | the accepted prefix is written at the logical position after the mode switch; success means exactly that all the `int` length admits was accepted; the reported count is true exactly on success below 2^31 bytes |
| FileOps.StoredAllIff | fileops.c:379 | all data is taken exactly below 2^31 bytes or without a buffer |
| FileOps.StoredLaw | fileops.c:379 | between 2^31 and 2^32 bytes nothing is taken, and then only what is beyond 2^32 |
| FileOps.LklFile.WriteUnbuffered | fileops.c:413-458 | always reports success; the count says what was written exactly when the kernel did not fail |
| FileOps.LklFile.ReadFull | fileops.c:461-482 | delivers a prefix in order; success exactly when all of it came; the total is false exactly when the flush failed; EINTR only from an interrupted buffered read |
| FileOps.PlayConserves | fileops.c:484-505 | for any answers of the kernel: the bytes sent are those moved over plus those stepped back over, and without failures they are a prefix of the data |
| FileOps.FullWriteIff | fileops.c:484-505 | a full write that ends has sent the data exactly when no write failed, and otherwise as many bytes more as it stepped back |
| FileOps.FullWriteExample | fileops.c:451-502 | 6 of 10 bytes, then EIO, then 9: five bytes are written twice and 10 reported |
| FileOps.LklFile.WriteFull | fileops.c:484-505 | unbuffered: reports success whatever fails, the file gets what the answers of the kernel make it send, which is the data exactly when none failed; buffered: one write |
| FileOps.LklFile.SetPtr | fileops.c:507-538 | answers in the buffer or from the kernel as the target demands, through a flush; the error is the flush's, the kernel's, or that of a target that overflows |
| FileOps.LklFile.Seek | fileops.c:541-591 | reports the resulting position; a success reaches the target as the handle counts, in step unless answered from the buffer; a failure leaves the flat file as it was even after its flush; from the end it counts from the logical size |
| FileOps.LklFile.InfoGetLocked | filestat.c:125-146 | the size told includes pending bytes |
| FileOps.LklFile.InfoGet | filestat.c:149-169 | the same with errors as positive numbers |
| FileOps.LklFile.Close | fileops.c:50-81 | a successful close leaves on disk what the handle contained; any failure on the way is reported, that of the close before that of the flush |
| FlatRun.WriteFollows | fileops.c:383-407 | a complete write does what the flat file does exactly when nothing was unread or the handle was in step, and the drift it leaves |
| FlatRun.SeekFollows | fileops.c:507-578 | a seek does, and reports up to the drift, what the flat file does exactly under the guard on where it is answered |
| FlatRun.Perform | fileops.c:234-591 | undisturbed and with lengths and targets below 2^31, from any coherent handle: an operation does to a flat byte sequence with one position what it should, and reports positions off by the drift, exactly when its guard held |
| FlatRun.Replay | fileops.c:234-591 | undisturbed, so does every run of reads, writes, flushes, seeks and size queries up to the first operation that would part the two; in a run that starts in step the drift is 0 until a write finds bytes unread, and never more than the buffer |
| FlatRun.ReplayAndClose | fileops.c:71-81 | and a close behind it leaves the flat run's final contents on disk, drift or not |
| FlatRun.WriteAndReadBack | fileops.c:234-591 | undisturbed, what is written to its right place through a handle not behind the kernel is read back after a seek to that place, which puts the handle in step |
| AsciiCodec.DecodeEncode | utils.c:85-148 | decoding the wire form of any byte string gives it back |
| AsciiCodec.CodecExample | utils.c:85-148 | "a", LF, CR, "b" is 97 13 10 13 98 on the wire, and back |
| AsciiCodec.EncodeDecodeIff | utils.c:85-148 | encoding what was decoded gives the wire stream back exactly when every LF in it follows a CR |
| AsciiCodec.EncodeChunks | cmdhandler.c:416-438 | the wire stream does not depend on how the file is cut into reads |
| AsciiCodec.StreamExcess | cmdhandler.c:652-662 | the chunked decoder's output exceeds the one-shot decoding by exactly the number of early releases, and equals it when there are none |
| AsciiCodec.ChunkingInvisibleIff | cmdhandler.c:652-662 | chunking is invisible exactly when no empty chunk comes between a CR and its LF |
| AsciiCodec.EarlyReleaseExample | utils.c:117-122 | an empty chunk between CR and LF lets the CR through |
| AsciiCodec.BinToAscii | utils.c:85-105 | writes exactly the wire form of its input and nothing beyond |
| AsciiCodec.AsciiToBin | utils.c:110-148 | in one buffer with one spare byte, the bytes from the returned start are exactly the decoded chunk; nothing behind the chunk is touched |
| AsciiCodec.DecodeBody | utils.c:127-145 | the loop, whose writes stay below every byte still to be read |
| AsciiCodec.EndToEnd | cmdhandler.c:416-452 | any file, any reads, any non-empty receives: with whole encoded blocks sent, the file arrives as it was |
| AsciiCodec.AsWrittenIff | cmdhandler.c:443-445 | with as many bytes sent as were read it arrives exactly if it has no LF |
| AsciiCodec.EndToEndAsWrittenIff | cmdhandler.c:443-445 | the same for every split of the stream into non-empty receives |
| Transfer.SocketWriteFull | cmdhandler.c:357-386 | sends exactly the reported prefix in order; stops short only on a failure or when the socket takes nothing |
| Transfer.DoFileSendRwloop | cmdhandler.c:394-453 | what is sent is the wire form of the blocks read, and on success of the whole rest of the file |
| Transfer.DoFileRecv | cmdhandler.c:617-674 | what is stored is the chunked decoding of what came exactly when no kernel write failed, and the decoding of the whole stream when no receive came back empty, however it was cut; on success the whole stream came |
| Transfer.Relay | cmdhandler.c:394-674 | both loops report success when nothing fails or stalls, and only then if the source is unbuffered (kernel writes passed over apart); then the file has come through exactly when no kernel write failed, or exactly a file without LF when blocks are cut short |
| SessionSpec.StepKeepsInv | worker.c:42-181 | every command keeps region safety, exclusivity and the shape of the working directory |
| SessionSpec.ChecksTerminateIff | connection.c:230-256 | the two mutually recursive checks come back, with the right answer, exactly when PORT and PASV are not both set |
| SessionRuns.RunIsLinked | worker.c:34-183 | a run hands the session from turn to turn with the invariant in front of each, and stops early only behind a turn that does not go on |
| SessionRuns.EveryRunIsSafe | worker.c:42-45 | at every clearing of the loop pool no session pointer leads into it, no data socket is open, PORT and PASV are not both set, and the working directory starts and ends with a slash |
| SessionRuns.RnfrAcceptedIff | worker.c:49-65 | an RNFR is accepted exactly when no rename is pending, its argument names a file or a directory, and the reply goes out |
| SessionRuns.RenamePairing | worker.c:49-65 | a rename is attempted exactly for an RNTO with an argument right behind an accepted RNFR, with that RNFR's path; anything else in its place is answered 503 and changes nothing |
| SessionRuns.TransferReplies | cmdhandler.c:465-769 | RETR, STOR and APPE are answered by one refusal or by 150 and one of 226, 426, 451, the latter exactly under the condition stated on the argument's path, the connection and, for RETR, the kind of file; STOU keeps to that exactly when it is refused before its file is open; the last reply tells how the loop ended; behind a transfer nothing is set up any more |
| SessionRuns.RetrReplies | cmdhandler.c:477-552 | RETR is carried exactly for a regular file that opens, over a connection set up and made; 451, 426, 226 for the file, the connection, neither |
| SessionRuns.UploadReplies | cmdhandler.c:677-769 | the same for STOR and APPE, whose file only has to open, and for STOU, which says 150, 150 and an end exactly when all of its steps go through |
| SessionRuns.StouExample | cmdhandler.c:737-746 | PASV and STOU in a fresh session: 150, 150, 226 |
| SessionRuns.EachTransferNeedsSetUp | cmdhandler.c:483-549 | on every run two completed transfers have a PASV or PORT of their own between them |
| SessionRuns.PasvReplyServesPort | connection.c:140-224 | the tuple a PASV reply prints, given to PORT on any connection, sets the printed address and the very port listened on |
| SessionRuns.PasvReplyHasTuple | connection.c:172-181 | with a dotted address a tuple is printed exactly when 227 is said |
| SessionRuns.DiesIff | connection.c:364-367 | the process is stopped exactly when LIST opens the directory it names, flags apart, with neither PORT nor PASV active |
| SessionRuns.DiesExample | cmdhandler.c:886-895 | a LIST as the first command does it |
| SessionRuns.CdupsUndoAcceptedCwd | cmdhandler.c:211-273 | an accepted CWD to k components is undone by k CDUPs, on every such run |
| SessionLaws.CwdLaw | cmdhandler.c:208-238 | CWD enters what its argument stands for, with one slash at its end, exactly if that is a directory; else 550 and nothing changes |
| SessionLaws.CwdOfAbsolute | cmdhandler.c:78-97 | a directory named from the root on, with or without its last slash, is entered from anywhere |
| SessionLaws.UpLaw | cmdhandler.c:194-273 | CWD without argument, to "." and "..", and CDUP: the reply, and the directory one component up, the root its own |
| SessionLaws.RnfrLaw | cmdhandler.c:275-305 | 350 exactly for a file or a directory, whose path is then pending in the session pool; else 550 and nothing pending |
| SessionLaws.RntoLaw | cmdhandler.c:315-340 | 250 exactly if a rename is asked for and succeeds, else 501; nothing is pending afterwards |
| SessionLaws.ChangeLaw | cmdhandler.c:100-584 | RMD, MKD, DELE: the change is asked for the path named, 250 or 257 exactly if it is made, for MKD only where nothing exists |
| SessionLaws.FirstBoundLaw | connection.c:35-93 | the port is that of the first attempt that binds; none exactly if all fail |
| SessionLaws.PasvLaw | connection.c:140-187 | 227 exactly if one of nine attempts binds and listening and the address work out; which port is listened on; PORT is forgotten |
| SessionLaws.PortLaw | connection.c:190-224 | PORT of six values: 200 and the target set exactly if the address is found, else 500 and the end; PASV is forgotten |
| SessionLaws.PortRefused | connection.c:204-209 | PORT of anything else: 500 and the end, nothing set |
| SessionLaws.RefusalLaw | cmdhandler.c:477-553 | why a transfer is refused: 501, 425, 550, 553 exactly when, and that the session goes on behind it only where a file of another kind is named |
| SessionLaws.CompletedLaw | cmdhandler.c:530-552 | behind a transfer all of the session is as before but PORT and PASV, which are cleared |
| SessionLaws.ListLaw | cmdhandler.c:859-913 | LIST: 501, 425, 226, 426 exactly when, for the directory and the flag its argument says; what was set up stays |
| SessionLaws.FixedLaw | worker.c:75-180 | the commands without effect: their replies, and that nothing changes |
| SessionLaws.EndLaw | worker.c:83-87 | the session ends by QUIT exactly where it is handled, and crashes exactly for PORT or SITE without an argument |
| FtpSession.LfdSess.constructor | sess.c:8-35 | the initial session, in the session pool, in "/" |
| FtpSession.LfdSess.PortActive | connection.c:230-242 | ends with the right answer, its `bug` unreachable |
| FtpSession.LfdSess.PasvActive | connection.c:244-256 | likewise |
| FtpSession.LfdSess.DataTransferChecksOk | connection.c:259-267 | holds exactly with PORT or PASV active, and says 425 otherwise |
| FtpSession.LfdSess.BindToRandomPassivePort | connection.c:35-93 | listens on the port of the first attempt that binds, if one of nine does |
| FtpSession.LfdSess.HandlePasv | connection.c:140-187 | the session, replies, printed tuple and end of `SessionSpec.Pasv` |
| FtpSession.LfdSess.HandlePort | connection.c:190-224 | those of `SessionSpec.Port`, through the host-port parser |
| FtpSession.LfdSess.InitDataSockParams | connection.c:270-283 | takes the descriptor over, its `bug` unreachable |
| FtpSession.LfdSess.GetRemoteTransferFd | connection.c:360-383 | 150 and a socket, or 425 and none; dies exactly with neither PORT nor PASV |
| FtpSession.LfdSess.HandleRetr | cmdhandler.c:465-553 | the session, replies and end of `SessionSpec.Retr`, the socket opened and closed within |
| FtpSession.LfdSess.HandleUploadCommon | cmdhandler.c:677-769 | those of `SessionSpec.Upload` |
| FtpSession.LfdSess.HandleList | cmdhandler.c:859-913 | those of `SessionSpec.List` |
| FtpSession.LfdSess.HandleCwd | cmdhandler.c:188-239 | those of `SessionSpec.Cwd` |
| FtpSession.LfdSess.HandleCdup | cmdhandler.c:241-273 | those of `SessionSpec.Cdup`, by cutting the path in place |
| FtpSession.LfdSess.HandleRnfr | cmdhandler.c:275-305 | those of `SessionSpec.Rnfr`, the source kept in the session pool |
| FtpSession.LfdSess.HandleRnto | cmdhandler.c:315-340 | those of `SessionSpec.Rnto`, and the rename asked for |
| FtpSession.LfdSess.TakeTurn | worker.c:44-180 | one turn of the loop is one step of the state machine |
| FtpSession.LfdSess.FtpProtocolLoop | worker.c:34-183 | the loop's run on any commands is the run of the state machine |
| Paths.ParentRemovesOneSlash | cmdhandler.c:253-269 | away from the root CDUP leaves a directory with exactly one slash less |
| Paths.RootReachedIff | cmdhandler.c:253-269 | n CDUPs reach "/" exactly when n is at least the number of slashes less one |
| Paths.CdupsUndoCwd | cmdhandler.c:78-97 | going up as often as components were entered ends where it began |
| Paths.CutLast | cmdhandler.c:253-269 | the in-place truncation computes the parent directory |
| HostPort.ParseUcharStringSep | connection.c:98-137 | accepts and stores exactly what the token-by-token reading gives |
| HostPort.ParseJoin | connection.c:98-137 | every list of at least one byte is read back from its printed form |
| HostPort.PasvReplyReadAsPort | connection.c:172-213 | the tuple of a PASV reply used as a PORT argument names the same address and port |
| HostPort.ParseTokens | connection.c:98-137 | a list of any tokens is read token by token, and one separator behind it makes no difference |
| HostPort.WrongCountRefused | connection.c:112-120 | a list with any other number of tokens than expected is refused |
| HostPort.TokenValueIff | connection.c:122-133 | a token is accepted exactly when the digits behind its white space and sign are at most 255 (0 behind a minus), and read as their number |
| HostPort.TokenExample | connection.c:122-130 | white space, signs, leading zeros and trailing text; 255 and 256 |
| HostPort.TokenAsDocumentedIff | connection.c:96-133 | a token is treated as a number between 0 and 255 should be exactly when it is a decimal number or the number found is out of range |
| HostPort.ListAsDocumentedIff | connection.c:96-137 | a list is, exactly when all its tokens are decimal numbers or one of them is out of range |
| HostPort.LettersExample | connection.c:204-213 | PORT "a,b,c,d,e,f" is accepted as port 0 of 0.0.0.0 |
| HostPort.LeadingSeparatorIff | connection.c:111-122 | a token behind extra separators is read as 0, which is right exactly when there are none or it is read as 0 itself |
| HostPort.LeadingSeparatorInList | connection.c:111-122 | separators in front of any printed list turn its first value into 0 and leave the others |
| HostPort.LeadingSeparatorExample | connection.c:204-213 | PORT ",1,2,3,4,5,6" is accepted as port 1286 of 0.2.3.4 |
| Decimal.ValueOfPrinted | connection.c:122 | reading a printed number gives it back |
| Decimal.ValueIsNumeral | connection.c:122 | reading, which counts from the first digit on, gives the numeral of the leading digits, counted from the last |
| UniqueName.SomeSuffixFree | cmdhandler.c:605-614 | not more than 2^32 names, the base among them, leave a suffix free within as many probes as there are names |
| UniqueName.NameLaw | cmdhandler.c:607 | a candidate is the base, a dot and the suffix in decimal, the first ".1" |
| UniqueName.ProbeOrder | cmdhandler.c:605-613 | suffixes run from 1 to 2^32 - 1 and then 0 |
| UniqueName.GetUniqueFilename | cmdhandler.c:586-615 | returns the first name not in use in the order of the probes, everything before it being in use, wrap-around of the suffix included |
| DirOps.RecordAt | dirops.c:77-78 | a record is found at its place with its length and its name |
| DirOps.RecordExample | dirops.c:77-78 | the length of a record lies at 16, low byte first, and the name at 18 |
| DirOps.Dir.Readdir | dirops.c:64-81 | yields every record of every block once and in order |
| DirOps.DirRead | dirops.c:83-145 | names the next entry whether or not stat succeeds |
| DirOps.ListDir | cmdhandler.c:812-855 | the listing is the lines of the entries shown, in order |
| DirOps.ListingSnoc | cmdhandler.c:812-853 | each entry adds its line of its name and the attributes last known, with CR LF behind it, or nothing if its name starts with a dot and -a is not given |
| DirOps.WithoutAll | cmdhandler.c:817 | where stat succeeds, leaving out -a lists exactly the names that do not start with a dot, in order |
| DirOps.ShortListingExample | cmdhandler.c:849-852 | a directory "d" and a file "f": "d/" and "f" |
| DirOps.HiddenIff | cmdhandler.c:817 | an entry is left out exactly for a dot in front of its name and no -a |
| DirOps.OneLineEachIff | cmdhandler.c:812-853 | for any formatter: never fewer lines than entries shown, even where stat fails, and exactly as many precisely when no line listed has an LF of its own |
| DirOps.EntryLineBreaksIff | cmdhandler.c:834-851 | a line of at most 1023 bytes, long or short, has an LF exactly when the part of the name that fits has |
| DirOps.ShortListingIff | cmdhandler.c:849-852 | a short listing has a line for each entry shown and no other exactly when no name shown has an LF in its first 1023 bytes |
| DirOps.BrokenLineExample | cmdhandler.c:849-852 | a file called "a\nb" is listed on two lines |

## Left out

- Handles opened for appending with a buffer: the daemon opens its upload files unbuffered, and the
  model covers appending there.
- Unbuffered seeks, which only pass the kernel's answer on, and waiting in `poll` for a descriptor that
  is not ready, which regular files never need.
- `ungetchar`: no operation ever sets it, so its branches are dead.
- Locks around the file buffer: each operation is atomic.
- Opening files, permission bits, file times, deletion on close.
- Reading and tokenizing command lines: the session starts from a parsed command and argument, an
  argument never being empty.
- A PORT or SITE command without an argument follows a null pointer; the model ends the run there.
- Scaling of random ports: each attempt to bind is an arbitrary success or failure on some port.
- A PASV reply whose own address is not dotted decimal: its numbers are not initialized, and `tuple` is
  `None`. Of all other replies the text is left out.
- FileOps.LklFile.WriteFull: does not say what the source writes once it has stepped back to in front of
  its data, because those bytes are not its own; `Transfer.DoFileRecv` ends there too.
- The REST offset and the abort flag, which are always zero, and ASCII mode as session state: TYPE
  never sets it, so the transfer loops take it as a parameter.
- The transfer loops inside the session steps: a step takes the result of a transfer as an answer;
  the loops are proved separately.
- The layout of directory records is that of a 64-bit kernel; what a long listing prints in front of a
  name (type, permissions, size, date) is a parameter.
- Listening, threads, signals, logging, and mounting and halting the kernel.
