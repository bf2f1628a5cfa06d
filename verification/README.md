# Cloudisk: a verified model of transfer, storage and scheduling

Cloudisk is a small cloud disk: a client uploads (`puts`) and downloads (`gets`) files, the server
keeps one directory tree per user in a table and stores every distinct content once, under the name
of its SHA-256. This project models that behaviour in Dafny and proves what it is meant to guarantee.

- **Transfer.** A data connection is two byte sequences; `recv` returns any positive number of the
  bytes that have arrived. The receive loop, the length-prefixed trains, the chunked hash loop and
  both ends of `gets` and `puts` are methods with the loops of the C code, each proved equal to a
  function of the bytes on the wire. A run of a download is a sequence of attempts, each cut
  anywhere in either direction, and the client may also die right after truncating its file. The wire
  format is stated byte by byte (`Wire`, `Digest`, `Net`, `FileReceiving`, `GetsServer`, `GetsClient`,
  `GetsExchange`, `Resume`, `Download`, `PutsExchange`, `Residue`, `WireFormat`).
- **Storage.** `Server.CloudDisk` holds the file table with increasing ids, the blob directory and
  the users, and has the table operations and the command handlers as methods. Runs are arbitrary
  sequences of commands by arbitrary sessions, uploads cut anywhere and uploads of arbitrary bytes
  included; what each command does is also stated in terms of the rows alone (`Paths`, `Table`, `Disk`,
  `Server`, `Runs`, `Commands`, `Tree`, `Walk`, `CurrentDirectory`, `Ascent`, `Nameless`, `Stranded`,
  `Versions`).
- **End to end.** `Programs` ties the methods to the functions the runs are made of; `EndToEnd`
  carries an upload through to the same user's download, with interruptions and with everybody's
  commands in between.
- **Thread pool.** A transition system with one program counter per worker, an explicit wait set,
  spurious wakeups, a producer and a shutdown; the ring buffer is a class over an array (`TaskRing`,
  `ThreadPool`, `PoolSafety`, `PoolProgress`).
- **`ls`.** The column-major grid (`Grid`).

## Assumptions

- Both ends have the same byte order (little-endian) and widths (`int` of 4, `off_t` of 8 bytes).
  File sizes are below 2^63, names hold no NUL byte and are shorter than 2^31. The `int` that `recvn`
  returns is modelled: raw mode never completes from 2^31 bytes on.
- SHA-256 is any function to 32 bytes. It is never assumed injective: a conclusion about content
  either admits a collision explicitly, or requires that the hash tells a given finite set of
  uploaded contents apart (`Versions.CollisionFree`).
- `send` and `write` are complete; `read` on a regular file returns what is asked for or what is left.
- A loop of the C code that never ends is a value (`NeverEnds`, `Hang`, `ended` false), not an
  excluded input.
- A blob is the file that "upload_dir/hash" comes to: slashes and "./" in front of the hash are
  skipped, what a path makes that goes on with "../" is an arbitrary function (`Disk.Outside`: a file
  outside, one inside again, or none that can be opened), and any other hash that is no plain file name
  cannot be opened. The directory holds plain files only, and nobody else writes to the files.
- An absent local file asks for the same as an empty one. Downloading an empty file creates none and
  succeeds (src/client/client_file_transfer.c:225-228).
- A query compares names, paths and hashes byte by byte. (The tables have no COLLATE clause,
  src/server/db.c:63-73; a default collation that ignores case would find "/u" for "/U" as well.)
- Where a query yields several rows, the code takes the first; rows are taken to come in id order.
- User names are single path components, user ids positive and distinct.
- Command handlers are atomic. A session is an arbitrary pair of user name and current directory, so
  runs cover several sessions per user; only `CurrentDirectory` and what it cites assume one each.

## Where the code differs from what is written about it

- README.md:160-162 of the repository promises that an instant transfer saves the bandwidth. The
  client always sends the body (src/client/client_file_transfer.c:436-489), and after a hit the
  server leaves it on the data connection, which is used again and takes it for the next request
  (`Residue.RecordedUploadLeaves`, `PutsExchange.InstantUploadBlocksTheNextIff`,
  `Residue.ResidueBecomesARow`). If the first train of the residue passes for the next name, the
  second, of up to 4096 bytes, is received into the 8 bytes of `file_size`
  (src/server/file_transfer.c:406-407); what the model says of that case supposes that the bytes too
  many do no harm.
- README.md:364-365 of the repository promises that large downloads go on where they broke off. A
  large file is extended to its full length before its first byte arrives, so the bytes that had
  arrived are kept exactly when all that was missing is zero, and otherwise sent again
  (`Resume.LargeFilesStartOver`).
- Server and client test different sizes against the large-file threshold. The tests agree in every
  state interrupted downloads lead to (`Resume.ModesAgree`); for a local file of other origin
  `Download.UninterruptedDownloadSucceedsIff` says exactly when they do not.
- `puts` and `gets` build different paths in the directory "/"
  (`Ascent.UploadAndDownloadPathsAgreeIff`).
- No attempt to transfer 2^31 bytes or more succeeds: the byte count does not fit the return type of
  `recvn` (`FileReceiving.RecvRawCompletesIff`, `Resume.HugeAttemptFails`). So the client's
  uploads never get such a file recorded, and everything recorded is small enough to be downloaded
  (`Versions.ReachableBlobsInOrder`, `EndToEnd.UploadThenDownload`).
- A blob that rows name can be truncated by an upload that announces its hash under another spelling,
  with a slash in front or along a path out of the upload directory and back.
  `Versions.NamedBlobsStayIff` says exactly when, `Versions.SlashedHashOverwrites` and
  `Versions.LeadingOutOverwrites` give the inputs; hashes without a slash, all that the client sends,
  never do it.
- `ls` of a directory in which all names are empty divides by zero (src/server/ls.c:57), and
  `mkdir name; mkdir name//` makes one (`Grid.LayOut`, `Nameless.NamelessListing`).
- The hash loop spins when the announced offset lies beyond the file
  (`Digest.HashLoopTerminatesIff`, `GetsExchange.SpinsIffFileIsLonger`).

## Model

| member | source | states |
|---|---|---|
| EndToEnd.UploadThenDownload | src/server/file_transfer.c:349-620 | After any history of all users: an upload recorded under a path without live rows, in full or instantly and whoever stored the blob first, is what a later download into a fresh file yields, through any interruptions and any commands of everybody with slash-free hashes, except an `rm` of the path by the same user; an attempt that is not cut does succeed, since nothing recorded has 2^31 bytes |
| EndToEnd.DownloadGetsOldestVersion | src/server/file_transfer.c:82-346 | In general a completed download yields the head of the queue that the uploads and removals in the history amount to for that path; if the queue is not empty there is a blob, and an attempt that is not cut succeeds |
| EndToEnd.DownloadAmongOthers | src/client/client_file_transfer.c:125-378 | With everybody's commands between the attempts, an `rm` of the path by the same user excepted, success still means the content served at the start |
| EndToEnd.PlayKeepsSource | src/server/file_transfer.c:100-113 | Attempts and such commands in any order keep the served content and a resumable local file |
| EndToEnd.PlayRunsTheOthers | src/server/file_transfer.c:82-113 | The disk goes through the other commands in their order whatever the download does |
| EndToEnd.PlayMakesTheAttempts | src/client/client_file_transfer.c:125-378 | And the local file through the attempts, at the content served at the start |
| EndToEnd.RecordedUploadAppends | src/server/file_transfer.c:467-618 | An upload that is recorded adds exactly the uploaded content behind the versions of its path |
| Resume.InterruptedDownloadsAreSafe | src/client/client_file_transfer.c:125-378 | From no local file, after any attempts cut anywhere: the announced offset lies in the stored file, both ends pick the same mode, neither spins, and success means the local file is the stored one or, large files only, collides with it |
| Resume.AttemptKeepsResumable | src/client/client_file_transfer.c:229-339 | However an attempt is cut, a small file's copy stays a prefix and a large one's stays empty or of full length |
| Resume.AttemptsKeepResumable | src/client/client_file_transfer.c:125-378 | The same over whole sequences of attempts |
| Resume.ModesAgree | src/client/client_file_transfer.c:255-257 | In every resumable state the server's test of what remains and the client's test of the whole size agree |
| Resume.ServerNeverSpins | src/server/file_transfer.c:162-205 | No request from a resumable state, whole or cut, leads the server into the endless hash loop |
| Resume.LargeFilesStartOver | src/client/client_file_transfer.c:257-293 | A large download cut after k bytes leaves them in a file of full length; the next attempt keeps them if and only if all that was missing is zero (or the copy collides), else it starts at the first byte |
| Resume.WholeAttemptSucceedsIff | src/client/client_file_transfer.c:255-377 | From every resumable state an attempt that is not cut succeeds, and consumes exactly what the server wrote, if and only if less than 2^31 bytes are to be sent |
| Resume.DownloadRecoversIff | src/client/client_file_transfer.c:125-378 | The same after any interrupted attempts from no local file, and success is sound |
| Resume.HugeAttemptFails | src/client/client_file_transfer.c:274-287 | From no local file, a whole attempt for 2^31 bytes or more does not succeed |
| Resume.SmallAttemptGrowsByPayload | src/client/client_file_transfer.c:302-338 | A small file grows by exactly the payload of the whole trains received |
| Resume.SmallAttemptsAddUp | src/client/client_file_transfer.c:294-339 | Over all attempts the length of the copy is the payload written |
| Resume.NoByteIsWrittenTwice | src/client/client_file_transfer.c:294-339 | When a small file is complete, the payload of all attempts together is its length |
| Download.UninterruptedDownloadSucceedsIff | src/server/file_transfer.c:259-318 | Over any local file no longer than the stored one, an uninterrupted download succeeds with the stored content and nothing left over if and only if the two mode tests agree and less than 2^31 bytes are missing |
| Download.WholeAttemptLeavesResumable | src/client/client_file_transfer.c:229-339 | Whatever the local file was, an uninterrupted attempt leaves one in the state interrupted downloads keep |
| Download.SecondAttemptSucceedsIff | src/client/client_file_transfer.c:125-378 | So from any local file no longer than the stored one the second of two uninterrupted attempts succeeds, if and only if less than 2^31 bytes are to be sent by then |
| Download.RawModeOutcome | src/client/client_file_transfer.c:257-293 | Raw mode always leaves a file of the announced size, and fails from 2^31 bytes on |
| Download.DifferentModesFail | src/client/client_file_transfer.c:257-292 | Frames received as raw bytes never pass the final check with the right content |
| Download.EqualModesSucceed | src/client/client_file_transfer.c:255-377 | With equal modes and less than 2^31 bytes to go the file is completed and the connection is left empty, from every accepted offset |
| Download.EveryFourthByteIsZero | src/server/file_transfer.c:283-307 | If a file is a prefix of its own framing, every fourth byte of the framing is zero |
| Download.ChunkIndex | src/server/file_transfer.c:283-307 | Where each byte of the framed stream comes from: a header, or the file byte four positions per train earlier |
| Download.ModesCanDiffer | src/server/file_transfer.c:259 | Files for which the mode tests differ exist |
| WireFormat.AnswerFormat | src/server/file_transfer.c:215-345 | Byte by byte: name, missing bytes, size of the file; up to 104857600 missing bytes in trains, more as they are; the hash of the whole file at the end |
| WireFormat.RequestFormat | src/client/client_file_transfer.c:139-162 | The size in eight bytes, and for a copy that is not empty 64 hexadecimal digits and a NUL |
| WireFormat.UploadFormat | src/client/client_file_transfer.c:406-489 | Name, size, 64 digits without a NUL, and a body in the format of a download |
| WireFormat.BodyFormat | src/server/file_transfer.c:259-317 | Train j carries the bytes from 4096 j on, and a length 0 ends the body; beyond 104857600 bytes the body is the file |
| WireFormat.SmallDownloadGoesOn | src/client/client_file_transfer.c:294-339 | Up to 104857600 bytes an attempt cut behind its j-th train leaves the copy longer by 4096 j bytes of the file |
| WireFormat.CutDownloadsLeave | src/client/client_file_transfer.c:257-339 | Whatever the cuts: up to 104857600 bytes a prefix of the file, beyond nothing or a file of full length |
| WireFormat.CutUploadLeaves | src/server/file_transfer.c:518-602 | A cut body leaves a prefix up to 104857600 bytes and a blob of full length beyond, complete exactly with the whole body of less than 2^31 bytes |
| WireFormat.FreshDownloadSucceedsIff | src/client/client_file_transfer.c:125-378 | An uninterrupted download into a fresh file yields exactly the file if and only if it has less than 2147483648 bytes |
| WireFormat.OffsetDecides | src/server/file_transfer.c:162-213 | For any offset within the file and any hash: the transfer goes on from there exactly if the hash is that of as many bytes, and starts over if not |
| WireFormat.NegativeOffset | src/server/file_transfer.c:229-307 | A negative offset is answered with more bytes announced than there are, and no hash or no end |
| WireFormat.ClosingHashDecides | src/client/client_file_transfer.c:341-374 | A file received to the end is accepted exactly with the hash of its bytes |
| WireFormat.OtherNameRefused | src/client/client_file_transfer.c:182-187 | An answer or an upload under another name is refused and leaves the file alone |
| WireFormat.DeathLeavesNothing | src/client/client_file_transfer.c:247-253 | A client that dies right after truncating leaves an empty file |
| WireFormat.NothingToGoOnWith | src/client/client_file_transfer.c:235-241 | Asked to resume a file that is not there, the client fails without creating it |
| WireFormat.VerifyHangsIff | src/client/client_file_transfer.c:343 | The final hash never ends exactly if more bytes are announced than there are |
| GetsExchange.RequestAnswered | src/server/file_transfer.c:133-213 | A whole request is answered from the offset whose hash matches, else from the start |
| GetsExchange.CutRequestUnanswered | src/server/file_transfer.c:133-190 | A request cut anywhere is never answered |
| GetsExchange.SpinsIffFileIsLonger | src/server/file_transfer.c:194 | The handler hangs exactly when the client's file is longer than the stored one, which is when its hash loop over the announced part does not end |
| GetsExchange.AnnouncementOfPrefix | src/client/client_file_transfer.c:164-223 | From a cut answer the client learns name and sizes as sent, or nothing |
| GetsExchange.FramesOfPrefix | src/client/client_file_transfer.c:301-338 | From cut frames the copy is a prefix of the stored file, longer by the whole trains; complete only with all of it |
| GetsExchange.RawOfPrefix | src/client/client_file_transfer.c:273-290 | Raw bytes complete the file exactly when all have arrived and are less than 2^31; before that it holds what arrived and zero bytes |
| GetsExchange.VerifiedOfPrefix | src/client/client_file_transfer.c:341-374 | Over the stored content the closing hash is accepted when it arrives whole, and refused otherwise |
| GetsServer.HandleGets | src/server/file_transfer.c:132-345 | The handler writes what the reply function says for the request received, with offset check, reset and both modes |
| GetsServer.SendReply | src/server/file_transfer.c:215-345 | Announcement, bytes from the descriptor's position on, full hash |
| GetsServer.SendRaw | src/server/file_transfer.c:259-279 | Whatever portions `sendfile` takes, the bytes from the position to the end go out once and in order |
| GetsServer.SendChunks | src/server/file_transfer.c:280-317 | The read loop emits the framing of the bytes from the position to the end, and the end mark |
| GetsClient.ClientGets | src/client/client_file_transfer.c:125-378 | Status, local file and bytes sent are those of the outcome function, for any segmentation of the answer, also when the client dies right after truncating |
| GetsClient.SendRequest | src/client/client_file_transfer.c:139-162 | Size of the copy, and its hash if it is not empty |
| GetsClient.ReceiveAnnouncement | src/client/client_file_transfer.c:164-223 | Name check and both sizes, or failure |
| GetsClient.ReceiveFile | src/client/client_file_transfer.c:255-374 | The mode by size, the file as far as it arrives, and the verdict |
| GetsClient.VerifyFullHash | src/client/client_file_transfer.c:341-374 | Success exactly when the received string is the hash of the announced length |
| FileReceiving.RecvRawCompletesIff | src/server/file_transfer.c:538-555 | The raw loops, whose position moves by an `int`, complete a file if and only if all of it arrives and less than 2^31 bytes were asked for |
| FileReceiving.AfterNegativeCount | src/client/client_file_transfer.c:274-287 | What either side does when the returned count has turned negative: the server gives up, the client may go back and overwrite what it has |
| FileReceiving.ReceiveMapped | src/server/file_transfer.c:538-555 | The loop over the mapped file does what the stream function says, in both programs' ways of giving up |
| FileReceiving.ReceiveRaw | src/client/client_file_transfer.c:257-293 | The mapped file holds what has arrived behind the offset, zero bytes or old ones elsewhere |
| FileReceiving.ReceiveFrames | src/client/client_file_transfer.c:302-338 | Whole trains are written one behind the other, a broken one not at all |
| PutsExchange.UploadRoundTrip | src/server/file_transfer.c:357-603 | Size and hash arrive; a miss reproduces a file of less than 2^31 bytes and leaves later bytes, and never completes a longer one; on a hit the residue is exactly the encoded body |
| PutsExchange.BlobOfPrefix | src/server/file_transfer.c:518-602 | A blob is completed only with the very content, from the whole body whenever it has less than 2^31 bytes |
| PutsExchange.OfferOfPrefix | src/server/file_transfer.c:357-446 | A cut header yields nothing, a whole one what was sent |
| PutsExchange.InstantUploadBlocksTheNextIff | src/server/file_transfer.c:467-486 | After an instant upload of a small file, whatever follows, the next upload is refused if and only if the body has at most two trains or does not start like the next name; else its second train is taken for the size and its third for the hash |
| Residue.RecordedUploadLeaves | src/server/file_transfer.c:465-618 | A whole upload is recorded if and only if its hash is known or it has less than 2^31 bytes; it leaves the encoded body and the later bytes in the first case, only the later bytes in the second |
| Residue.ResidueBecomesARow | src/server/file_transfer.c:371-486 | An input on which the residue of an instant upload is recorded as an empty file under the next upload's name |
| PutsExchange.ClientPuts | src/client/client_file_transfer.c:381-493 | The client writes name, size, hash and encoded body, in this order |
| PutsExchange.ReceiveOffer | src/server/file_transfer.c:357-446 | The server reads the three trains and checks the name |
| PutsExchange.ReceiveBlob | src/server/file_transfer.c:518-602 | The blob as far as it arrives, in the mode of the announced size |
| Net.Recvn | src/server/msg.c:4-16 | For any segmentation: the next n bytes exactly and their count as an `int`, or 0 with what had arrived in the buffer |
| Net.ReceiveTrain | src/client/client_file_transfer.c:164-181 | Header and payload of one train |
| Wire.RecvTrainInvertsTrain | src/server/msg.c:4-16 | A train sent is received, and nothing behind it is touched |
| Wire.RecvTrainOfPrefix | src/server/msg.c:4-16 | A cut loses a train altogether or leaves it whole |
| Digest.CalculateFileSha256 | src/server/file_transfer.c:4-69 | From any descriptor position: the one-shot hash of the slice and the descriptor right behind it if the slice lies within the file, no end otherwise |
| Digest.HashLoopTerminatesIff | src/server/file_transfer.c:28-44 | The chunk loop ends if and only if the slice lies within the file |
| Digest.HexDigits | src/server/file_transfer.c:60-66 | Digits 2 i and 2 i + 1 are those of the upper and the lower half of byte i, in "0123456789abcdef" |
| Digest.HexIsInjective | src/server/file_transfer.c:60-66 | The hexadecimal form loses nothing |
| Digest.SameShaMeansSameContentOrCollision | src/server/file_transfer.c:201 | Equal strings mean equal content or a collision, and the other way round |
| Programs.RunAttempt | src/client/client_file_transfer.c:125-378 | Client and handler run against each other over a breaking connection are one attempt of the download model |
| Programs.RunCommand | src/server/cmd_parse.c:33-163 | Every command of a run is what its handler does to the shared state |
| Programs.RunUpload | src/server/file_transfer.c:349-620 | Client and handler run against each other are the upload command of the runs |
| Versions.RunRefinesQueues | src/server/commands.c:269-316 | Over every run that overwrites nothing - any hash function, uploads of any bytes - the blobs at each path are a first-in first-out queue driven by uploads and `rm` |
| Versions.StepIsQueueChange | src/server/file_transfer.c:467-618 | A recorded upload of any bytes appends the blob its hash names, `rm` drops the oldest, all else changes nothing, for every user and path |
| Versions.ClientRunRefinesQueues | src/server/file_transfer.c:467-618 | With the repository's client and no collision it is a queue of the uploaded contents |
| Versions.CommandKeepsSource | src/server/file_transfer.c:89-113 | What a download serves survives every command of everybody but an `rm` of the path by the same user and an upload that overwrites |
| Versions.RmDropsOldest | src/server/commands.c:282-310 | `rm` removes the oldest row of the path and no other file row |
| Versions.DownloadServesOldest | src/server/file_transfer.c:89-113 | `gets` serves the head of the queue, or fails when it is empty |
| Versions.ReachableBlobsInOrder | src/server/file_transfer.c:465-618 | After every run with interrupted and instant uploads and removals, each file row names a stored blob with its hash and size |
| Versions.UploadEffect | src/server/file_transfer.c:465-618 | An upload of a known user is recorded exactly when the header has arrived and either the hash is known or the body is whole and has less than 2^31 bytes; then its blob is the content |
| Versions.NamedBlobsStayIff | src/server/file_transfer.c:465-510 | Whatever paths out of the directory come to: an upload of arbitrary bytes leaves every named blob as it is if and only if it does not announce one under another spelling, or with the same bytes |
| Versions.NamedBlobsStay | src/server/file_transfer.c:465-510 | No command that does not do so changes a named blob |
| Versions.PlainNeverOverwrites | src/server/file_db.c:140-158 | With slash-free hashes in the rows and in the upload no named blob is opened with truncation |
| Versions.PlainRunsNeverOverwrite | src/server/file_transfer.c:467-510 | Nor is one in any run of such uploads |
| Versions.ClientIsPlain | src/client/client_file_transfer.c:427-434 | The repository's client announces slash-free hashes only |
| Versions.OtherSpellingOverwrites | src/server/file_transfer.c:490-510 | Announcing an unknown second spelling of a row's hash with nothing behind it empties the row's blob |
| Disk.Spellings | src/server/file_transfer.c:490-510 | Which file a hash string names: "/x" and "./x" are x, "../x" is up to the file system, a path into a subdirectory cannot be opened |
| Versions.SlashedHashOverwrites | src/server/file_transfer.c:490-510 | A slash in front of the hash does so for every row of every table of slash-free hashes |
| Versions.LeadingOutOverwrites | src/server/file_transfer.c:490-510 | So does a path out of the upload directory and back to the blob |
| Versions.StepKeepsBlobs | src/server/file_transfer.c:465-618 | Every step keeps the blob invariant; partial blobs stay unnamed |
| Versions.OthersDoNotInterfere | src/server/file_transfer.c:467-603 | No sequence of other users' commands in which no upload announces a blob under another spelling changes a user's rows or the blobs behind them |
| Versions.HoldingsDecide | src/server/file_db.c:174-207 | A user's downloads and listings depend on that user's rows and blobs only |
| Commands.RmdirOutcome | src/server/commands.c:190-266 | `rmdir` succeeds exactly for a directory that is there and has no rows below it, the current one or not; just its oldest row goes, and a session in it is in the parent; refused, nothing changes |
| Commands.MkdirOutcome | src/server/commands.c:125-187 | `mkdir` succeeds exactly if the parent is there, also when the path exists already; just one row comes, below the oldest parent |
| Commands.RmOutcome | src/server/commands.c:269-316 | `rm` succeeds exactly if there is a file, and removes just its oldest row |
| Commands.CdOutcome | src/server/commands.c:69-109 | `cd` succeeds exactly if the directory is there, and changes the current directory only |
| Commands.CdHome | src/server/commands.c:34-40 | `cd`, `cd ~` and `cd /` lead to a live root from everywhere; `cd .` stays |
| Commands.LoginOutcome | src/server/session.c:127-166 | A login leads to the root and adds a root row exactly if the user has nothing at top level |
| Commands.PutsOutcome | src/server/file_transfer.c:446-618 | An upload is recorded exactly if its hash is known or its blob is received to the end; which row comes, which blob changes, and what an abort leaves |
| Commands.GetsOutcome | src/server/file_transfer.c:89-119 | A download serves the blob of the oldest file row at the path |
| Commands.ListingOutcome | src/server/ls.c:17-34 | `ls` shows the rows below the oldest directory of the current path, and fails exactly if that is gone |
| Commands.StrangersAreRefused | src/server/commands.c:76-79 | Without a registered user nothing happens |
| Tree.ReachableIsWellFormed | src/server/commands.c:125-187 | In every reachable table each directory is its user's root or hangs below a live one with a smaller id whose path it extends; children hang at the first row of a path |
| Tree.StepKeepsWellFormed | src/server/commands.c:190-266 | Every command of every session keeps that; `rmdir` and `rm` orphan nothing |
| Tree.RmdirKeepsWellFormed | src/server/commands.c:226-250 | Removing a directory without children orphans no row |
| Tree.RmKeepsWellFormed | src/server/commands.c:282-310 | Removing a file orphans no row |
| Tree.MkdirKeepsWellFormed | src/server/commands.c:142-181 | A new directory hangs below the first row of its parent path, even next to duplicates |
| Tree.LoginKeepsWellFormed | src/server/session.c:135-166 | A login adds at most one root, and only when there is nothing at top level |
| Tree.PutsKeepsWellFormed | src/server/file_transfer.c:457-479 | Uploads of any bytes from any directory, also a vanished one, keep the tree |
| Walk.PathIsChain | src/server/commands.c:166-175 | A directory's path is the names along its parent ids, starting at the user's own name; the chain ends because ids decrease |
| Walk.LookupIsWalk | src/server/file_db.c:210-227 | Looking a path up finds exactly the rows reached by following children name by name |
| Walk.ListingIsByPath | src/server/ls.c:23-34 | The listing by parent id is the set of rows whose path is the current directory and their name |
| Walk.FirstOfAttached | src/server/file_db.c:210-227 | A directory with children is the first among the rows of its path |
| CurrentDirectory.EveryoneIsConfined | src/server/commands.c:69-109 | With one session per user and no root removed (refused attempts are no matter), every current directory is live, at or below the user's root, and `ls` shows exactly the rows there |
| CurrentDirectory.WorldStepIs | src/server/session.c:127-166 | A login or a command changes the disk as the command does, moves that user and nobody else |
| CurrentDirectory.WorldRunKeepsOrder | src/server/session.c:127-166 | Every run of logins and commands keeps all current directories live |
| CurrentDirectory.OwnCommandKeepsLive | src/server/commands.c:252-260 | A user's own command leaves a live current directory unless it does remove the root |
| CurrentDirectory.OthersRowsUntouched | src/server/file_db.c:101-113 | A command changes no result of another user's queries |
| Ascent.AscentReachesRoot | src/server/commands.c:28-109 | From depth k, of any number of `cd ..` exactly the first k succeed and end in the user's root |
| Ascent.CdUp | src/server/commands.c:41-47 | One `cd ..` goes to the parent; at a root it fails and changes nothing |
| Ascent.EnterAndLeave | src/server/commands.c:69-109 | `cd name; cd ..` comes back if and only if the directory does not end in a slash |
| Stranded.RemovingTheRootStrands | src/server/commands.c:252-260 | Removing one's own root leads from it to "/", and through any commands of anybody every `cd` and `mkdir` of that user fails until that user logs in again |
| Stranded.LoginRestoresIff | src/server/session.c:135-166 | The next login makes the root live again if and only if the user then has nothing at top level |
| Stranded.StrandedUploadBlocksLogin | src/server/file_transfer.c:457-474 | An upload recorded in the meantime is put at top level |
| Ascent.UploadAndDownloadPathsAgreeIff | src/server/file_transfer.c:72-79 | Upload and download name the same path if and only if the current directory is not "/" |
| Paths.SplitOfJoin | src/server/commands.c:6-26 | Parent and last name of a joined path are its parts |
| Paths.JoinOfSplitIff | src/server/commands.c:6-26 | Splitting and joining gives a path back if and only if it has a slash behind its first byte |
| Paths.ExtractParentAndDirname | src/server/commands.c:6-26 | The scan for the last slash yields parent and name |
| Paths.SpecialArguments | src/server/commands.c:33-40 | "", "~" and "/" mean the root, "." the current directory, for every user name that is a path component |
| Paths.HomeArguments | src/server/commands.c:48-51 | "~/x" is x below the root, less one trailing slash |
| Paths.AbsoluteArguments | src/server/commands.c:52-55 | A path with a slash in front is itself, less one trailing slash |
| Paths.RelativeArguments | src/server/commands.c:56-65 | Everything else is appended to the current directory, less one trailing slash |
| Paths.UpArgument | src/server/commands.c:41-47 | ".." takes the last name away |
| Paths.NormalizePath | src/server/commands.c:28-66 | The program computes the path these results are about |
| Table.FirstHasLowestId | src/server/file_db.c:210-227 | The first matching row has the lowest id of all that match |
| Table.DeletedOne | src/server/file_db.c:101-113 | Deleting a row by its id takes out that row and keeps the order of all others |
| Table.SelectDeleted | src/server/file_db.c:101-113 | Deleting a row takes it out of every query result and leaves the rest in order |
| Server.CloudDisk.RunQuery | src/server/commands.c:142-164 | A query yields the matching rows in table order |
| Server.CloudDisk.CreateRecord | src/server/file_db.c:4-28 | One more row under the next id, nothing else |
| Server.CloudDisk.DeleteRecord | src/server/file_db.c:101-113 | The row with this id and user goes, all others stay in order |
| Server.CloudDisk.ListRecords | src/server/file_db.c:31-98 | A new array with all records of the directory |
| Server.CloudDisk.FindByHash | src/server/file_db.c:140-170 | The first row of any user with this hash |
| Server.CloudDisk.GetRecordByPath | src/server/file_db.c:174-207 | The first file row of the user at the path |
| Server.CloudDisk.GetDirId | src/server/file_db.c:210-227 | The id of the first directory row at the path, or -1 |
| Server.CloudDisk.HandleLogin | src/server/session.c:127-166 | Current directory and root row after a login are those of the command in the runs |
| Server.CloudDisk.HandleCd | src/server/commands.c:69-109 | Likewise for `cd`, with both failures |
| Server.CloudDisk.HandleMkdir | src/server/commands.c:125-187 | Likewise for `mkdir` |
| Server.CloudDisk.HandleRmdir | src/server/commands.c:190-266 | Likewise for `rmdir`, with the move out of a removed current directory |
| Server.CloudDisk.HandleRm | src/server/commands.c:269-316 | Likewise for `rm` |
| Server.CloudDisk.HandleLs | src/server/ls.c:14-39 | The records below the current directory, or an error |
| Server.CloudDisk.HandlePuts | src/server/file_transfer.c:349-620 | Likewise for an upload from any connection: hit, miss, abort; and what a recorded upload leaves on the connection |
| Server.CloudDisk.HandleGets | src/server/file_transfer.c:82-346 | The blob of the first row at the path is served, or nothing is sent |
| PoolSafety.ReachablePoolIsSafe | src/server/thread_pool.c:9-93 | In every interleaving of a pool with the configured workers and cells: their numbers stay, mutual exclusion, no lost wakeup, and accepted tasks are finished, in hand or queued, once each and in order |
| PoolSafety.StartIsConfigured | src/server/thread_pool.c:41-65 | The pool starts with thread_num workers about to begin, queue_size cells, and nothing queued |
| PoolSafety.SubmissionReturns | src/server/thread_pool.c:70-93 | Whatever the workers do meanwhile, a submission returns 0 exactly if its task, and no other, has been put at the end, and -1 exactly if nothing has |
| PoolSafety.DoKeepsInv | src/server/thread_pool.c:9-93 | Every step of every thread, spurious wakeups included, keeps the invariant |
| PoolSafety.DoRefinesBoundedQueue | src/server/thread_pool.c:70-93 | Every step is one of a bounded first-in first-out queue; refusal happens exactly when it is full |
| PoolSafety.NobodyFindsTheQueueEmpty | src/server/thread_pool.c:25-36 | A worker behind the wait loop finds a task unless the pool stops |
| PoolProgress.QueueDrains | src/server/thread_pool.c:9-37 | With the producer idle, any schedule as long as the backlog has had the queue empty |
| PoolProgress.ReachedPoolGoesOn | src/server/thread_pool.c:41-60 | In every state a pool with at least one worker reaches: while tasks are queued some worker can go on |
| PoolProgress.ReachedPoolFinishes | src/server/thread_pool.c:9-37 | From every such state with the producer idle the workers can, by their own steps, finish every accepted task |
| PoolProgress.AcceptedAreTaken | src/server/thread_pool.c:25-36 | Whatever the schedule of the workers: when the queue is empty, all that had been accepted has been taken |
| PoolProgress.HolderCanGoOn | src/server/thread_pool.c:70-104 | Whoever holds the mutex can go on, and so can a main thread in a call when no worker holds it |
| PoolProgress.AnythingMayHappen | src/server/thread_pool.c:13-17 | Spurious wakeups at any time, signals to any waiter, calls whenever the producer is idle: the schedules leave none out |
| PoolProgress.WorkReducesBacklog | src/server/thread_pool.c:9-37 | While tasks are queued every worker step, a spurious wakeup too, reduces the backlog |
| PoolProgress.SomeWorkerCanGoOn | src/server/thread_pool.c:9-37 | While tasks are queued some worker can take a step |
| PoolProgress.DestroyIsCalled | src/server/thread_pool.c:96-98 | The call keeps the invariant and begins a shutdown |
| PoolProgress.DestroyEnds | src/server/thread_pool.c:96-108 | From the call of the shutdown on nothing is accepted, and a schedule that cannot be continued ends with every worker joined |
| PoolProgress.ShutdownEnds | src/server/thread_pool.c:96-108 | Once stop is set every schedule is finite and ends with all workers joined, and what never runs is what was queued at that moment |
| PoolProgress.StopStep | src/server/thread_pool.c:13-23 | After stop nobody takes a task or starts to wait, and every step counts down |
| PoolProgress.SomeoneCanGoOn | src/server/thread_pool.c:96-108 | A shutdown never gets stuck |
| PoolProgress.NobodyIsForgotten | src/server/thread_pool.c:100-103 | Behind the broadcast no worker is left waiting |
| PoolProgress.WhatIsLeft | src/server/thread_pool.c:106-108 | When the joins are through, all taken tasks are finished and the others still queued |
| TaskRing.FullMeansCapacity | src/server/thread_pool.c:75 | The test for a full ring means queue_size - 1 tasks |
| TaskRing.PushAppends | src/server/thread_pool.c:82-84 | Storing at the rear appends, across the wrap-around |
| TaskRing.PopDrops | src/server/thread_pool.c:27-28 | Advancing the front drops the oldest, across the wrap-around |
| TaskRing.TaskQueue.constructor | src/server/thread_pool.c:41-60 | After initialisation the ring is empty |
| TaskRing.TaskQueue.AddTask | src/server/thread_pool.c:70-92 | Appends and returns 0, or leaves the queue alone and returns -1 exactly when it is full |
| TaskRing.TaskQueue.TakeTask | src/server/thread_pool.c:25-28 | Returns the oldest and leaves the rest |
| Grid.EachRecordIsWrittenOnce | src/server/ls.c:84-93 | For every count and name length, the row loop writes each record exactly once and nothing else |
| Grid.WalkIsRowByRow | src/server/ls.c:84-93 | Records are written from top to bottom and from left to right, index i in row i mod nrows and column i div nrows |
| Grid.ColumnCountIs | src/server/ls.c:55-63 | The number of columns is the largest with columns times longest name at most 125, but at least one and at most one per record |
| Grid.GridShowsSortedOrder | src/server/ls.c:41-96 | The cells of that grid, read column by column, hold the records in their sorted order |
| Grid.ColumnsAreInOrder | src/server/ls.c:84-93 | The first columns, read downwards, hold the first indices in order, for any grid shape |
| Grid.GridIsTight | src/server/ls.c:57-65 | Enough cells for all records, and one row less would not do |
| Grid.CellIsUnique | src/server/ls.c:87 | Each index stands in exactly one cell |
| Grid.ColumnWidth | src/server/ls.c:69-79 | A column is as wide as its longest name |
| Grid.LayOut | src/server/ls.c:41-96 | Columns, rows and widths of the whole layout, and the order of writing: row by row, each record once; it dies if and only if all names are empty |
| Nameless.NamelessListing | src/server/commands.c:61-65 | In any state, `mkdir name; mkdir name//` makes a directory whose listing is one record with an empty name |
| Grid.WriteRows | src/server/ls.c:84-96 | The two loops visit the cells in the order of the walk |

## Left out

- SHA-256 itself and `crypt`: any hash function is allowed.
- MySQL: SQL text, escaping, LIMIT and query failures. The table is modelled directly.
- Fixed C buffer sizes and truncation: strings and paths are unbounded, and a received hash is read up to its first NUL.
- Files outside the upload directory that were there before, or that other programs write to: a download finds one only once an upload has written it.
- A download whose row has a hash that names a directory (the empty hash, "..", a path outside): opening a directory for reading is treated as a failure to open.
- Grid.LayOut: an empty listing is not laid out; the handler answers it before (src/server/ls.c:36-39).
- Received values longer than their variable: only the first 8 bytes of a size count, what the rest overwrites is not modelled. A size received in fewer than 8 bytes is completed with zero bytes, also where the variable is not initialised.
- Raw mode of the client after a count that turned negative: writing in front of the mapping is not modelled, the attempt ends there with a failure.
- Sockets, epoll, fork, signals, mmap and sendfile mechanics, logging and progress bars. `recv` returning -1 is not told apart from 0.
- Two transfers at once on one data connection, and two concurrent uploads of one hash: the second truncation can hit a recorded blob, so the blob properties need atomic handlers.
- Uploads running late on a copied UserInfo: covered by the tree and blob properties, since sessions are arbitrary there, and outside the current-directory properties.
- Registration and login dialogue, tokens, connection slots, configuration, command tokenising and `pwd`.
- `file_db_update_record`, `delete_user` and `print_progress`: unused, or display only.
- `qsort` and `strcasecmp`: the layout starts from the sorted records. The text `ls` prints is not modelled; the write at src/server/ls.c:90 omits the position, so only the index walk is.
- Workers that start before src/server/thread_pool.c:57-64 has set the fields: the pool starts from the state after initialisation.
- A signal that wakes more than one waiter: the others are covered as spurious wakeups.
- PutsExchange.InstantUploadBlocksTheNextIff: small files only; the residue of a large file is its raw content, and whether that reads like a request is up to its bytes.
- EndToEnd.UploadThenDownload: not for the directory "/", where the two paths differ (`Ascent.UploadAndDownloadPathsAgreeIff`).
