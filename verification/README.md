# Verified model of sshsyrup's file services

This project models, in Dafny, the parts of the SSH honeypot that carry the most state and byte
arithmetic, and proves what they promise:

* the **SFTP server session**: framing, the handle table, directory paging, the end-of-file cache and
  the replies to every request type, both as a state machine and as the class that runs it on the
  shared nodes of the virtual filesystem;
* the **virtual filesystem**: a tree built from archive entries, lookup through symbolic links, and
  files decompressed lazily into a growing buffer;
* the **ZIP extra field**: the writer of the image builder and the parser of the server;
* **SCP**: the source that serialises a tree and the sink that interprets the stream;
* the terminal's **newline writer**, the **working directory**, and **digit grouping** in `wget`.

Go strings are byte sequences, so strings, paths and wire data are all `seq<byte>`. Integer widths are
modelled where they matter: `uint32` truncation in every 32-bit field, the 32-bit string end in
`byteToStr`, the 32-bit frame sizes of `sendReply`, the signed reading of 64-bit offsets, and the
wrap-around of the upload limit check. Go's `int` is taken to be 64 bits wide, so handle numbers and
file sizes stay below 2^63. A Go panic is an outcome, not a precondition: `Crashed` for a request,
`Panicked` for a load step, `OutOfRange` for a slice past the end. Map iteration order, `Readdir` order
and the failures of an inner writer are nondeterministic.

## How the proofs are laid out

| file | what it holds |
|---|---|
| `GoBytes.dfy`, `Numerals.dfy`, `Paths.dfy` | integers as bytes, decimal and octal numerals, and the `path` package |
| `VirtualFile.dfy` | the node class with its lazy buffer, against plain random access |
| `FlatTree.dfy`, `SymLinks.dfy`, `VirtualFS.dfy` | the flat map a tree means, lookup through links, the tree class against both |
| `SftpTypes.dfy`, `SftpFrames.dfy` | contents of messages on the wire, and their frames |
| `SftpSession.dfy` | the session as a state machine |
| `SftpRuns.dfy`, `SftpCrashes.dfy` | what holds of every run, and exactly which requests crash one |
| `SftpRequests.dfy` | what each request is answered and does to the tables, as the client sees it |
| `SftpDownload.dfy`, `SftpPaging.dfy`, `SftpAnswers.dfy` | files and directories read over many requests |
| `SftpServer.dfy` | the server class, proved to run that state machine |
| `SftpWire.dfy` | what a client decodes from the bytes the server writes |
| `ExtraField.dfy` | writer, parser, records |
| `ScpTree.dfy`, `ScpSink.dfy`, `ScpSource.dfy` | trees and streams, sink, source |
| `ScpShapes.dfy`, `ScpRoundTrip.dfy` | which trees, walked from which paths, the source keeps in balance and sends right |
| `ScpRefusals.dfy` | errors, refusals and lines that are not part of a plain copy |
| `ScpHandshake.dfy` | source and sink together: flushing, waiting, and the copy from one to the other |
| `StdoutWriter.dfy`, `WorkingDir.dfy`, `DigitGroups.dfy` | the small loops |

Results that the code meets only in part are proved as exact conditions:

* The extra field reads back exactly when the present times are an initial run of modification, access
  and creation time and fit in 32 bits; the length gates of the parser skip a time behind a gap.
* A message reads back from its frame exactly when its payload and header fit 32 bits and it carries an
  id unless it is an INIT, because the id field is left out when the id is 0. When the frame's length
  wraps around, `sendReply` panics if it falls below the header and cuts the message short otherwise.
* From a clean path other than ".", the recursive SCP source sends a tree's own stream exactly when the
  tree is *straight*: before every sibling comes a file, or a directory that ends in a file or is empty
  and whose name does not begin the sibling's name. Otherwise the source sends too few E's there, since
  it rises one level a step and decides by a string prefix.
* From every path that does not mean the current directory, absolute or relative, clean or not, the
  brackets of the source balance for every tree. From "." they do not: the paths below it do not begin
  with ".", so the source sends an E before every entry that follows no directory and whose name does
  not begin with a dot, and two plain files are enough to close more than was opened. From any path they
  balance exactly when the tree *floats*: the levels it leaves open and the E's it leaves out cover the
  E's that are too many. A path with a backslash is closed before it is opened.
* The source waits for the reply to an E of its walk before that E is flushed. It does not stall,
  because the sink sends one reply up front that the source never asks for: at each such wait that is
  the one reply left to read.
* All lookups terminate exactly when the links of the archive can be ranked, and exactly when there are
  no links that lead through one another; those never resolve. A path through a link means the path
  through its target unless the target is itself a link, whose own target is then not followed.
* `NewVirtualFS` closes the archive when it returns, while entries are opened only at the first read. So
  of a tree as it is loaded no READ is ever answered with data: at offset 0 it is answered FAILURE, and
  at any other offset it crashes the session. The results about reading a file are about nodes whose
  entry opens, and say so.
* A request crashes the session exactly when its payload is malformed, or it reads, on an open file
  not yet read to its end, at an offset outside what there is to read, or it sends the attributes of an
  entry whose extra field does not parse, or the length of its reply's frame wraps around below the
  header. The last happens for READs that would send 2^32 - 13 to 2^32 - 5 bytes; a
  READ is sent back whole exactly when it sends fewer. In a run, every request has its reply exactly
  when none is of these kinds.
* A relative link target loses its first name and is resolved from the root, and so is the name in an
  OPEN, which does not go by the working directory; OPEN answers a missing file with FAILURE, not with
  the status for missing files; OPENDIR does not follow links; and once any handle has closed a node, no
  handle can read it again. These follow the code.

## Model

| member | source | states |
|---|---|---|
| SftpDownload.DownloadGivesTheFile | sftp/sftp.go:450-473 | in every run that keeps open a node whose entry opens, whatever else is requested in between, each of consecutive READs of n bytes from 0 is answered: size/n + 1 DATA replies whose chunks put together are the file, then EOF forever. Only another request can crash the run, and when all others are answered whole it reaches its end |
| SftpDownload.ReadsSendChunks | sftp/sftp.go:213-233 | the same from any offset: the i-th READ on the handle is answered with the i-th chunk, and none of them is where a run crashes, by induction over the interleaved run |
| SftpAnswers.OpenThenDownload | sftp/sftp.go:191-233 | OPEN of a name that means a file whose entry opens, through a link or not, followed by consecutive READs on the handle it gave, all of them answered, returns the content of that file |
| SftpAnswers.OpenGivesReadableHandle | sftp/sftp.go:413-448 | an OPEN not for creation, of a file whose entry opens and nobody closed, answers with the next handle number and leaves a state that reads the file from its start |
| SftpRequests.WalkMeans | virtualfs/filesystem.go:103-129 | a lookup that follows links finds, for a path through a link whose target is no link, what is in the tree at the target's path with the rest, and without links what is at the path |
| SftpRequests.StatDescribesTheNode | sftp/sftp.go:159-178 | STAT and LSTAT of any argument that resolves to a path decode to the attributes of the node the path means, links followed; 2 exactly when there is none, 5 for an empty argument, a crash exactly when the node's extra field does not parse |
| SftpRequests.FstatDescribesTheNode | sftp/sftp.go:340-358 | FSTAT on an open handle decodes to the attributes of the handle's node and changes nothing; it crashes exactly when its extra field does not parse |
| SftpRequests.RealPathSendsThePath | sftp/sftp.go:95-114 | REALPATH of an argument that resolves to a path sends that path with the attributes of the node it means, and 2 exactly when there is none |
| SftpRequests.OpenDirOpensTheDirectory | sftp/sftp.go:269-282 | OPENDIR gives the next handle, on the node at the path its argument resolves to, and nothing else changes; 2 exactly when there is none, 5 for an empty argument |
| SftpRequests.OpenOpensTheNode | sftp/sftp.go:413-448 | OPEN gives the next handle, on the node its name means, links followed, and nothing else changes; 4 exactly when there is none or creation is asked for |
| SftpRequests.LinkToLinkFails | virtualfs/filesystem.go:115-120 | through a link to a link, STAT is answered 2 and OPEN 4 |
| SftpRequests.CloseShutsTheHandle | sftp/sftp.go:284-304 | CLOSE of an open handle is answered 0, takes it out of all three tables and shuts its node, and changes nothing else |
| SftpRequests.NoHandleFails | sftp/sftp.go:284-358 | CLOSE, READ, WRITE, FSTAT and READDIR on a handle that is not open, or no number, are answered 4 and change nothing |
| SftpRequests.ReadRefusals | sftp/sftp.go:450-473 | a READ on a handle that has met the end is answered 1, and before that 4 on a directory and on a node that is shut |
| SftpRequests.FixedAnswers | sftp/sftp.go:234-264 | RMDIR, SETSTAT, REMOVE and RENAME are answered 0, WRITE and MKDIR on the archive 4, an unknown request 5, and none of them changes anything |
| SftpRequests.StatSendsWhatWasWritten | sftp/types.go:114-133 | the owner and times the image builder wrote into an entry's extra field are those a STAT of it decodes to, whenever they read back |
| SftpRequests.RealPathSettles | sftp/sftp.go:95-114 | a REALPATH that names a node decodes to one entry with the absolute clean path, and a REALPATH of that path, from any directory, sends the same |
| SftpAnswers.ClosedNodeIsNeverRead | sftp/sftp.go:284-304 | from a CLOSE of any handle on a node on, no READ of it in any run is answered with data, also through other handles and ones opened later |
| SftpAnswers.DeadHandleStaysDead | sftp/sftp.go:284-304 | from its CLOSE on, answered 0, a handle stays out of the table in every run and each request on it is answered 4 |
| SftpPaging.DirectoryPagingConserves | sftp/sftp.go:305-338 | in every run without a CLOSE of the handle, each of its READDIRs is answered: n/120 + 1 NAME pages of at most 120 entries that decode to the first listing, each entry once and in order, then EOF forever. Only another request can crash the run, and when all others are answered whole it reaches its end |
| SftpPaging.ReadDirsSendPages | sftp/sftp.go:305-338 | the same from any page, by induction over the interleaved run |
| SftpPaging.ShortNamesFit | sftp/types.go:160-187 | pages of entries with names and listing lines of up to 2^25 bytes fit their frames |
| SftpPaging.FirstListingIsTheDirectory | virtualfs/file.go:116-126 | the listing that is paged out is the children of the handle's node, each exactly once |
| SftpPaging.PagesConserveTheListing | sftp/sftp.go:329-337 | the pages of a snapshot concatenate to it, from any page on |
| SftpCrashes.OneReplyPerRequest | sftp/sftp.go:74-267 | in every run each request gets exactly one reply, in order, with its id (0 for INIT) and a permitted type, exactly when none of them is one that crashes at the state it meets |
| SftpRuns.RepliesInOrder | sftp/sftp.go:74-267 | in every run, crashing or not, the i-th reply answers the i-th request with its id and a permitted type |
| SftpCrashes.CrashesExactly | sftp/sftp.go:92-264 | a request crashes the session exactly when its payload lacks a field its type reads, it reads outside an open file, it sends the attributes of an entry whose extra field does not parse, or the 32-bit length of its reply's frame wraps below the header; and exactly when its reply fits the frame is it sent whole |
| SftpCrashes.ReadOutcome | sftp/sftp.go:450-473 | the READ of an open file not read to its end is answered with data exactly when the entry opens, the offset is inside and the frame does not wrap, with FAILURE exactly when the entry does not open and the offset is 0, and crashes otherwise |
| SftpCrashes.ClosedArchiveSendsNoData | virtualfs/filesystem.go:35 | in every run on a tree none of whose entries opens, as NewVirtualFS returns it, no reply carries data |
| SftpCrashes.ReadIsWholeExactly | sftp/sftp.go:213-233 | a READ inside a file whose entry opens is sent whole exactly when the chunk is shorter than 2^32 - 13 bytes, and crashes exactly for 2^32 - 13 to 2^32 - 5 |
| SftpCrashes.LongReadCrashes | sftp/sftp.go:382-398 | the failing input: a well-formed READ of 2^32 - 10 bytes from the start of a file of that size crashes the session |
| SftpCrashes.WholeRun | sftp/sftp.go:74-267 | a run of requests that are all answered whole reaches its end with one reply each, every one of which fits its frame |
| SftpRuns.ServeWritesTheReplies | sftp/sftp.go:74-93 | fed the frames of any requests, the server writes exactly the frames of their replies back to back |
| SftpRuns.ServeStopsAtTheEnd | sftp/sftp.go:360-380 | and also when something follows them that is no request, with nothing written for it |
| SftpFrames.CutFrame | sftp/sftp.go:360-380 | a frame that is cut short is no request |
| SftpRuns.HandlesAreNeverReissued | sftp/sftp.go:277-281 | the handles issued in any run are strictly increasing from the first free number, so all distinct and never given out again |
| SftpRuns.RunKeepsInv | sftp/sftp.go:269-338 | over every run, all table keys are open handles below the next one, and handles point at nodes |
| SftpRuns.RunIsolatesHandles | sftp/sftp.go:284-338 | over every run in which no request names a handle, nothing about that handle changes in any table |
| SftpServer.Sftp.HandleRequest | sftp/sftp.go:74-267 | the bytes written for any input are those the state machine serves, for listings that are the directories' children; the tables stay consistent |
| SftpWire.ClientReadsTheReplies | sftp/sftp.go:74-93 | from what HandleRequest writes for the frames of requests that are answered whole, a client reads exactly their replies, to the last byte |
| SftpWire.ClientDownloadsTheFile | sftp/sftp.go:450-473 | from the bytes HandleRequest writes, a client decodes one reply for each READ of a download of a file whose entry opens, and they are the file |
| SftpWire.ClientOpensAndDownloads | sftp/sftp.go:191-233 | a client that sends OPEN of a file whose entry opens and then consecutive READs decodes, from the bytes HandleRequest writes, the handle and then the file, one reply for each READ |
| SftpWire.ClientListsTheDirectory | sftp/sftp.go:305-338 | from the bytes HandleRequest writes, a client decodes one reply for each READDIR on a handle, they are the children of its directory, and once it has read to the end the names it has decoded are exactly the directory's, each once |
| SftpWire.ClientOpensAndLists | sftp/sftp.go:115-135 | a client that sends OPENDIR of a path and then READDIRs decodes, from the bytes HandleRequest writes, the handle and then the children of the node at that path, and read to the end exactly their names, each once |
| SftpServer.Sftp.Dispatch | sftp/sftp.go:92-264 | one turn of the switch gives the reply and the new tables of the state machine, or panics exactly when it does |
| SftpServer.Sftp.ReadOpen | sftp/sftp.go:465-472 | a read on an open handle returns what plain random access to the node gives and remembers exactly that it met the end |
| SftpServer.Sftp.NextPage | sftp/sftp.go:329-337 | one page of the snapshot is sent and only this handle's cursor moves |
| SftpServer.Sftp.ShutHandle | sftp/sftp.go:291-303 | the handle leaves all three tables, its node is shut, and nothing else changes |
| SftpFrames.FrameReadsBack | sftp/sftp.go:360-398 | for messages of every size: a frame is written unless its length wraps below the header, and it is read back with what follows it exactly when the message fits and carries an id unless it is of the type without one |
| SftpFrames.FrameStreamReadsBack | sftp/sftp.go:360-398 | a run of frames is read back in order to the last byte exactly when every message is such |
| SftpFrames.LayOutReply | sftp/sftp.go:382-398 | the buffer sendReply fills is the frame of the message, with sizes computed in 32 bits; no buffer when they wrap below the header |
| SftpFrames.FrameLayout | sftp/sftp.go:382-398 | a message that fits its frame is its length, its type, its id when that is above zero, and its payload, in that order |
| SftpTypes.NamePacketReadsBack | sftp/types.go:160-187 | decoding a NAME packet recovers the count and every entry in order and uses up the packet |
| SftpTypes.CreateNamePacket | sftp/types.go:160-187 | the packet built entry by entry is the count followed by each name, long name and attributes; none when the name count differs, and a panic exactly when an extra field does not parse |
| SftpTypes.AttrsReadBack | sftp/types.go:114-133 | the 32 attribute bytes decode to flags, size (4096 for directories), ids, mode and times modulo 2^32, whatever follows |
| SftpTypes.StatusReadsBack | sftp/types.go:189-211 | a status message decodes to its code and its text |
| SftpTypes.CreateInit | sftp/types.go:144-158 | the buffer filled at fixed offsets is version 3 followed by three extension pairs |
| SftpTypes.StringReadsBack | sftp/types.go:102-111 | a written string reads back whatever follows it |
| SftpTypes.StringReadsExactly | sftp/types.go:108-111 | a string is read exactly when its bytes are there and its end is below 2^32, and panics otherwise |
| SftpTypes.StatusNumbers | sftp/types.go:79-89 | the numbers a client decodes from each status |
| SftpTypes.InitReadsBack | sftp/types.go:144-158 | the reply to INIT decodes to version 3 and the three extension pairs |
| VirtualFile.File.FillBuffer | virtualfs/file.go:25-44 | the buffer stays a prefix of the content with the reader at its end, grows to the bytes asked for, EOF is reported exactly past the size, and an entry that does not open leaves it empty |
| VirtualFile.File.ReadAt | virtualfs/file.go:70-80 | the bytes direct indexing of the content gives, whatever was buffered; out of range exactly for offsets outside the file; of an entry that does not open, an error at the start and out of range elsewhere |
| VirtualFile.File.Read | virtualfs/file.go:57-68 | the same at the current offset, which moves by the length asked for, also when the entry does not open |
| VirtualFile.File.Seek | virtualfs/file.go:82-103 | the position, and when it is refused |
| VirtualFile.ReadsConcatenate | virtualfs/file.go:57-68 | of an entry that opens, successive reads of any sizes give the content from the starting offset on |
| VirtualFile.SeekLands | virtualfs/file.go:82-103 | where a seek from the start, from the offset and from the end lands, and that it is refused outside the file |
| VirtualFile.SeekThenRead | virtualfs/file.go:57-103 | a relative seek and a read give the bytes from there, and a seek back from the end the last bytes |
| VirtualFile.OffsetLeavesRangeExactlyAtEof | virtualfs/file.go:57-68 | of an entry that opens, the offset leaves the file exactly by a Read that reports EOF; then the next Read panics and a Seek to the start recovers |
| VirtualFS.NewVirtualFS | virtualfs/filesystem.go:30-46 | the tree loaded from any entries is valid and means the flat fold of them, with the archive closed so that no entry opens any more; no tree exactly when a step of the fold panics |
| VirtualFS.Tree.CreateNode | virtualfs/filesystem.go:52-79 | the tree after an insert means the flat map after it; dropped exactly when it is a link that cannot be read or the directory is missing, panic exactly when that is not a directory |
| VirtualFS.Tree.FetchNode | virtualfs/filesystem.go:103-129 | the node found is the one the flat lookup names, with and without following links, and none exactly when that finds none |
| FlatTree.LastInsertDecides | virtualfs/filesystem.go:42-79 | after a whole load, the last entry that landed at a path or above it decides: its node is found there exactly when it landed at the path itself, and nothing when it landed above |
| FlatTree.UntouchedPathsStay | virtualfs/filesystem.go:52-79 | a path no entry lands at or above keeps its node, or its absence, over the whole load |
| FlatTree.LoadPanicsExactly | virtualfs/filesystem.go:72-77 | a load panics exactly when some entry is put into something that is there and no directory |
| FlatTree.BackslashPath | virtualfs/filesystem.go:104-106 | the backslashes of a path that starts with one are slashes |
| FlatTree.LoadKeepsShape | virtualfs/filesystem.go:42-79 | after any load every node lies in a directory |
| FlatTree.NormalNamePlace | virtualfs/filesystem.go:69-72 | a normal entry name, with or without trailing slash, is placed where it says, and its info has that name |
| FlatTree.LoadedIsWellNamed | virtualfs/filesystem.go:52-79 | after loading any entries, the info of every node has the last name of its path, unless that is empty |
| FlatTree.NamedByPlace | virtualfs/filesystem.go:69-72 | an entry's info has the name it is placed by exactly when that is not empty |
| SymLinks.LookupsEndExactlyWhenRanked | virtualfs/filesystem.go:103-129 | every lookup terminates exactly when the links can be ranked so that resolving a target only follows lower links, and then one allowance is enough for all lookups |
| SymLinks.LookupsEndExactlyWithoutCycles | virtualfs/filesystem.go:103-129 | every lookup terminates exactly when there are no links, at any paths, that lead through one another |
| SymLinks.LinkMeansItsTarget | virtualfs/filesystem.go:114-127 | looking up link/rest is looking up target/rest, except that nothing is found when the target is itself a link |
| SymLinks.LinkFreeLookupsAgree | virtualfs/filesystem.go:103-129 | without links on the way, following and not following agree with the flat map |
| SymLinks.CycleNeverSettles | virtualfs/filesystem.go:115-120 | a lookup that leads through a link of a cycle, of one link or several at any paths, ends with no allowance |
| SymLinks.AbsoluteTarget | virtualfs/filesystem.go:107-114 | an absolute target followed by names walks the target's names, then those |
| SymLinks.RelativeTarget | virtualfs/filesystem.go:113-114 | a relative target of plain names walks all but its first name from the root, and so never means the path relative to any directory |
| ExtraField.RoundTripExactly | cmd/createfs/createFSZip.go:49-91 | the written field parses back to the ids and times exactly when the present times are an initial run and fit in 32 bits |
| ExtraField.WrittenExtraInfo | virtualfs/fileinfo.go:124-137 | GetExtraInfo of such a field is the written owner and times, a time not given as the zero time |
| ExtraField.ParseTakesLastOfEachKind | virtualfs/fileinfo.go:50-92 | any concatenation of well-formed records parses, in bounds, to the last record of each kind, unknown ids skipped whole |
| ExtraField.ParseOfConcat | virtualfs/fileinfo.go:50-92 | parsing a then b is parsing a overridden by whichever kinds occur in b |
| ExtraField.ReadExtraHeader | virtualfs/fileinfo.go:50-92 | the loop computes the recursive parse for every input, with a panic where an index leaves the data |
| ExtraField.BrokenFields | virtualfs/fileinfo.go:50-92 | a stray byte panics, a time announced and not there is passed over, and a record of an unknown kind may be cut short |
| ExtraField.VariableInt | virtualfs/fileinfo.go:94-102 | an id of four bytes is little-endian, of eight its low half, of any other length 0 |
| ExtraField.WriteExtraUnixInfo | cmd/createfs/createFSZip.go:49-91 | the two buffers filled in place are the id record and, when a time is present, the timestamp record |
| ExtraField.WrittenBytes | cmd/createfs/createFSZip.go:49-91 | the bytes written: the ids with version 1 and four bytes each, then the times that are given with the flag for them, or nothing when none is |
| ScpHandshake.CopyRoundTrip | os/command/scp.go:71-257 | a sink fed what the source sends, from any path, of a tree it sends right, the source fed what the sink replies, gains exactly the tree, has sent exactly one reply more than was read, and is never waited for in vain |
| ScpHandshake.Handshake | os/command/scp.go:71-257 | for every tree, from every path, and every sink that answers OK to what is sent: one reply more is sent than read, and at each read the sink, having received only what was flushed, has already sent the reply |
| ScpHandshake.RiseReadsTheUpFrontReply | os/command/scp.go:166-175 | at the unflushed E of the walk the sink has answered all it has seen, so only the reply sent up front is left to read |
| ScpHandshake.SinkIsCausal | os/command/scp.go:71-156 | what a sink has sent in mid-stream is the beginning of what it sends, whatever follows |
| ScpRoundTrip.SourceSendsTheStreamExactly | os/command/scp.go:159-208 | from any path without backslash, the source sends a tree's own stream exactly when it enters every entry of the root without an E left out or too many and every entry is straight |
| ScpShapes.CleanSendsStraight | os/command/scp.go:159-208 | from a clean path other than ".", those are exactly the straight trees |
| ScpShapes.DotSendsDotted | os/command/scp.go:159-208 | from ".", exactly the straight trees in which each entry of the root that follows no directory has a name that begins with a dot |
| ScpShapes.StraightMissesNone | os/command/scp.go:166-175 | a tree is straight exactly when the source leaves out no E inside it |
| ScpRoundTrip.SourceReadsOneReplyAUnit | os/command/scp.go:159-257 | for every tree that floats, from any path all of them but for ".", one reply is read for each D and E and two for each file |
| ScpRoundTrip.EnoughReplies | os/command/scp.go:159-257 | from any path, the source never reads more than twice the tree's units |
| ScpShapes.SourceIsBalanced | os/command/scp.go:159-208 | for every tree, from every path that does not mean the current directory, and no client error, no prefix closes more directories than it opened and in the end all are closed |
| ScpShapes.SourceIsBalancedExactly | os/command/scp.go:159-208 | from any path without backslash, for a client that answers every command, the same exactly when the tree floats |
| ScpShapes.AlwaysFloats | os/command/scp.go:166-175 | from every path that does not mean the current directory, every tree floats |
| ScpShapes.DotStrays | os/command/scp.go:166-175 | the failing input: two plain files in "." close more directories than were opened |
| ScpSource.BackslashStrays | os/command/scp.go:165-175 | from a path with a backslash the source closes a directory before it has opened one |
| ScpSource.Callback | os/command/scp.go:164-197 | the walk callback writes, flushes and reads as one step of the source's state machine |
| ScpSource.SourceMode | os/command/scp.go:159-208 | for any path, the walk and the closing loop send, flush and wait as the source's state machine does, for any client replies |
| Numerals.Octal04Pads | os/command/scp.go:229 | the mode is its octal numeral, with zeros in front up to four digits and no more |
| ScpSink.SinkRebuildsTheTree | os/command/scp.go:71-156 | a sink sent a tree's stream answers OK throughout, adds exactly the tree's paths and contents, and changes nothing else |
| ScpSink.SinkTakesTree | os/command/scp.go:71-156 | the same inside any stream: afterwards the sink is back in the directory where it started |
| ScpSink.SinkMode | os/command/scp.go:71-156 | the loop computes the interpreter's replies and filesystem for every input |
| ScpRefusals.TimesBeforeATree | os/command/scp.go:149-150 | a T line before a tree's stream adds one OK reply and changes nothing else |
| ScpRefusals.UnknownIsRefused | os/command/scp.go:151-152 | an empty line and an unknown command are answered ERR and do nothing |
| ScpRefusals.ShortLineIsRefused | os/command/scp.go:86-90 | a C or D line with fewer than three fields is answered ERR and does nothing |
| ScpRefusals.FileIsRefused | os/command/scp.go:91-108 | a file is answered ERR, and its content taken as commands, when its size is no number or over the limit, or its path a directory or outside one |
| ScpRefusals.FileIsStored | os/command/scp.go:110-126 | otherwise it is stored, with the replies and the content when it breaks off or the byte after it is missing |
| ScpRefusals.DirIsEntered | os/command/scp.go:133-145 | the sink goes down into a directory whose mode is octal also when it cannot be made, then answered ERR |
| ScpRefusals.DirModeIsRefused | os/command/scp.go:133-137 | a directory whose mode is no octal number is answered ERR without effect |
| ScpRefusals.LeavingTheRoot | os/command/scp.go:146-148 | E at the root stays at the root |
| ScpRefusals.UnfinishedLineEnds | os/command/scp.go:75-82 | input that never ends a line is not answered and changes nothing |
| Numerals.SignedNumerals | os/command/scp.go:91-92 | ParseInt of a numeral with a sign: the signed number, or an error outside 64 bits, and an error for no digits at all |
| ScpRefusals.ErrorEndsTheWalk | os/command/scp.go:166-185 | an error reply to an E, D or C line ends the walk, with nothing sent after it |
| ScpRefusals.ReplyAfterContent | os/command/scp.go:253-256 | an error reply after a file's content is passed over, and the end of the replies there ends the walk |
| ScpRefusals.ErrorEndsTheClosing | os/command/scp.go:198-208 | an error reply in the closing loop ends it |
| StdoutWriter.Write | os/sys.go:161-187 | whatever the inner writer does, it received the translation of the first n bytes plus at most a cut CRLF; without failure all of it |
| StdoutWriter.SplittingIsInvisible | os/sys.go:161-187 | splitting a write into pieces does not change the output |
| StdoutWriter.TranslationReadsBack | os/sys.go:161-187 | the translation loses nothing |
| WorkingDir.System.Chdir | os/sys.go:114-126 | the directory stays absolute and clean, changes only into an existing directory, and is left alone by a failed call |
| WorkingDir.CwdStaysClean | os/sys.go:114-126 | the same over every run of calls |
| WorkingDir.ChdirComposes | os/sys.go:114-126 | chdir a, then relative b, lands where chdir a/b lands |
| WorkingDir.RealPathStep | sftp/sftp.go:48-53 | resolving one name from a clean directory: a plain name goes down, ".." up and at the root nowhere, "." and an empty name nowhere |
| WorkingDir.RealPathComposes | sftp/sftp.go:48-53 | resolving a, then b from there, is resolving a/b |
| WorkingDir.ChdirToParent | os/sys.go:114-126 | a successful Chdir("..") lands in the parent |
| Paths.ParentCancels | sftp/sftp.go:52 | a/c/../b means a/b, for a plain name c |
| WorkingDir.RealPathIdempotent | sftp/sftp.go:48-53 | resolving a resolved path changes nothing, from any directory |
| DigitGroups.Format | os/command/wget.go:117-131 | the loop never leaves its buffer and fills it with the digits, a comma at every fourth place from the right |
| DigitGroups.GroupingReadsBack | os/command/wget.go:117-131 | deleting commas and the leading NUL gives the digits back; that NUL is there exactly when the digit count is a multiple of three |

## Left out

- The copy-on-write overlay of the afero library: sessions run directly on the archive, so OPEN for creation, WRITE and MKDIR always fail.
- `cleanUp`, the quit channel, locks and logging: the single request loop is modelled, and a panic ends it.
- SftpTypes.AttrBytes: the mode word is taken as given; `fileModeToBit` and `byteToFileMode` are table look-ups.
- The listing line of `getLsString` is an opaque string of each entry.
- ExtraField.ReadExtraHeader: the capacity of the slice is taken to be its length, so bytes past the field are never read.
- VirtualFile.File.FillBuffer: a decompressor that opened delivers as many bytes as the archive declares.
- VirtualFS.Tree.FetchNode: called only with an allowance that settles the lookup; without a ranking of the links the program recurses until its stack overflows.
- ScpSource.SourceMode: the non-recursive mode, unreadable files and read errors other than the end of the replies are not modelled, nor is a full output buffer, which only sends more.
- ScpShapes.SourceIsBalanced: names of entries hold no backslash, which the source turns into a slash.
- ScpHandshake.CopyRoundTrip: names, the root's too, hold no space, line feed, slash or backslash, which the protocol's lines and the source's paths cannot carry, and a directory's mode is its permission bits.
- ScpSink.SinkMode: the receiving filesystem is a map from paths to directories and contents, with permissions and modes left out.
- SSH transport, port forwarding, the shell, the fake commands, wget's transfer, connection limits, session recording and configuration.
