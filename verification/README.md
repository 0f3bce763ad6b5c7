# Verification of torrest-cpp

torrest-cpp streams files out of torrents that are still downloading. This project models the parts of
it that have to be right for that, and proves them with Dafny 4.11. `dafny verify dfyconfig.toml`
checks everything.

- **Reading** (`Pieces`, `PieceCache`, `Torrent`, `Priorities`, `Reader`, `RangeStream`). A file is a
  slice of a torrent's bytes, and a torrent is cut into pieces that arrive late, are read through a
  cache, and expire from it. A reader still behaves like a byte array: what it returns is the file, in
  every interleaving with the threads that store and expire pieces. Other threads are the `schedule` of
  a torrent, an arbitrary list of batches of steps; a method lets the next batch happen before each of
  its critical sections and at each wait. A wait that outlasts the schedule ends as `Blocked`.
- **Buffering** (`Buffering`). Which pieces a file buffers, how many bytes are missing while ownership
  and the download queue change, and when the file stops buffering.
- **Locks** (`Locks`, `LockPaths`, `Wakeups`). The mutexes of the process as ranked locks, the lock path
  of each operation, and deadlock freedom for any number of threads; no lost wake-up of a reader.
- **Registry** (`MagnetCodec`, `Registry`, `Service`). The registered torrents and the files that mirror
  them, through additions, removals, alerts, resets and restarts.
- **Limits** (`RateLimits`, `Progress`). Rate limits that wait for buffering, and seeding limits.
- **Requests and settings** (`Items`, `Unescape`, `ListenInterfaces`). Folder listings, percent-decoding,
  and the list of listen interfaces.

Where the source updates something step by step the model does too, and each such method is proved
against a function of the old state; the lemmas are about those functions.

## Results that are not what one might expect

- A listen interface spelled `auto`, without a colon, becomes `auto:` and the port, which read back is
  a request for automatic interfaces: normalising is idempotent iff the first entry is not `auto`.
- Removing a torrent with its hash in another case takes it off the registry but leaves its files, and
  the next reload brings it back. So does a resume-data or metadata alert for it that is handled late.
- The metadata alert writes the torrent file and deletes the magnet file under no mutex. A removal in
  between, or a reload that refuses the torrent, followed by a new magnet can leave a registered torrent
  without any file; nothing else can.
- A torrent added from a torrent file is not downloaded any more after a reload that finds no resume data.
- Adding a torrent file while another is saved for its torrent, which is not registered, fails, but adds it.
- A seeding limit counts the time finished until the first second of seeding is reported, then only the
  time seeding: a limit that was reached may no longer be.
- A tick may bring the rate limits back although a file buffers: one made to buffer after its visit.
- A section of no bytes buffers the piece of its offset unless the offset is piece-aligned. Offset 0 is
  buffered although it is aligned, because the division of -1 truncates toward zero (not when pieces are
  one byte long).
- A piece that holds bytes of both ends of a file that are asked for, which do not meet, is buffered twice: it
  counts twice as missing and its received bytes once, so the file buffers until that piece is owned.
- On a directory whose magnet files are not named after their torrents, a magnet of a torrent that is registered
  already deletes the magnet file named after that torrent, whatever that one holds.
- A reader without a timeout sleeps on when the read of its piece fails, or when the piece expires before
  it gets to look, until some other reader has the piece read.

## Model

| member | source | states |
|---|---|---|
| `Pieces.ByteInPiece` | src/bittorrent/reader.cpp:30-36 | Every offset of a torrent lies in the piece given by the quotient, at the position given by the remainder, and that piece holds that byte there; the conversions to 32 bits lose nothing. |
| `Pieces.BeforeFirstByte` | src/bittorrent/reader.cpp:27 | The last piece of an empty file at the start of a torrent is 0 by truncation (-1 when pieces are one byte). |
| `Pieces.WindowStitched` | src/bittorrent/reader.cpp:70-118 | The pieces from that of a window's first byte to that of its last one exist and together supply exactly the window, with matching seams. |
| `PieceCache.CacheCoherent` | src/bittorrent/torrent.cpp:48-113 | After every run of stores, lookups and cleanups, a cached entry is the data last stored for its index and remembers its last use. |
| `PieceCache.CachedIffRetained` | src/bittorrent/torrent.cpp:48-113 | A piece is cached iff it was stored and every later cleanup saw its last use younger than the expiration. |
| `PieceCache.UsedEntrySurvives` | src/bittorrent/torrent.cpp:55-66 | An entry used at time t outlives every run whose cleanups read the clock before t plus their expiration. |
| `PieceCache.ExpiresAfter` | src/bittorrent/torrent.cpp:48-66 | After a piece is stored or looked up, a cleanup keeps it iff the time passed since, less the age of its clock reading, is below the expiration. |
| `Torrents.Torrent.StorePiece` | src/bittorrent/torrent.cpp:48-53 | The entry is replaced, stamped with the current time, and the cache still holds only true data. |
| `Torrents.Torrent.CleanupPieces` | src/bittorrent/torrent.cpp:55-66 | Erasing while iterating removes exactly the expired entries. |
| `Torrents.Torrent.WaitForPiece` | src/bittorrent/torrent.cpp:117-135 | Returns only when the piece is owned, at once if it is already; throws only for a closed torrent, a paused one that is not closed, or at or after the deadline, in that order. |
| `Torrents.Torrent.ReadScheduledPiece` | src/bittorrent/torrent.cpp:73-96 | A timed waiter returns the piece that is present, with its true data and a fresh use time, or throws at or after its deadline with the piece absent. |
| `Torrents.Torrent.ReadPiece` | src/bittorrent/torrent.cpp:98-113 | The same through the cache; a piece is asked of the handle before it is waited for. |
| `Torrents.Torrent.GetBytesMissing` | src/bittorrent/torrent.cpp:324-349 | With ownership and queue read at different moments: never negative, at most the bytes not owned at the start, at least those missing at the end; exact when ownership did not move; zero only if every piece is owned or fully received. |
| `Torrents.ReceivedAtMostMissing` | src/bittorrent/torrent.cpp:335-346 | Bytes in the download queue never exceed the bytes counted as missing, also when a piece is listed twice. |
| `Torrents.NothingMissing` | src/bittorrent/torrent.cpp:329-348 | If nothing is left missing, each listed piece is owned or all its bytes are in the queue. |
| `Torrents.EachByteCounts` | src/bittorrent/torrent.cpp:335-346 | Each byte received of a block of a listed piece counts once, and no byte of another piece does. |
| `Torrents.MissingIsBytes` | src/bittorrent/torrent.cpp:329-333 | What counts as missing of pieces listed once is the number of bytes of the torrent that lie in a listed piece not owned. |
| `Torrents.NothingMissingIff` | src/bittorrent/torrent.cpp:324-349 | Nothing is left missing iff each listed piece is owned, or listed once and all there in the queue: one listed twice must be owned. |
| `Priorities.RaisedIsMonotone` | src/bittorrent/reader.cpp:125-145 | No priority falls; missing pieces of the window end at the top, missing pieces ahead at 6 or more; owned pieces and pieces outside the span keep theirs. |
| `Priorities.PassInNumbers` | src/bittorrent/reader.cpp:125-145 | Piece by piece: one of the window not owned ends at priority 7, with deadline 0 if it was below; one `i` pieces past the window at 6 or more, with deadline 10 `i` if it was below; every other one keeps both. |
| `Priorities.DeadlinesOrdered` | src/bittorrent/reader.cpp:133-145 | Deadlines set in one pass do not decrease from piece to piece. |
| `Priorities.RaisedTwice` | src/bittorrent/reader.cpp:125-145 | A second pass over the same missing pieces changes no priority. |
| `Readers.Reader.SetPiecesPriorities` | src/bittorrent/reader.cpp:125-145 | With other threads at work between its calls, the loop leaves the priorities and deadlines of the pass over its span, for the pieces that were not owned when it looked at them, except where another thread set a priority. |
| `Readers.Reader.LookedAlone` | src/bittorrent/reader.cpp:125-145 | With no other thread at work it leaves exactly those of the pass, nothing past the last piece. |
| `Readers.Reader.NowaitReadAvailable` | src/bittorrent/reader.cpp:38-57 | True iff every byte from the position on, up to the number asked for or the end of the file, lies in an owned piece, and iff every piece from that of the first such byte to that of the last is owned. |
| `Pieces.CoversIffAllIn` | src/bittorrent/reader.cpp:38-57 | The pieces from that of a window's first byte to that of its last are in a set iff the piece of each of its bytes is. |
| `Readers.Reader.WaitForPieces` | src/bittorrent/reader.cpp:78-80 | Ends well iff all pieces of the window are owned; nothing is waited for when they already are. |
| `Readers.Reader.CopyPieces` | src/bittorrent/reader.cpp:106-118 | Whatever other threads do, a stitching loop that ends has filled the buffer with the window and written nothing behind it; one that fails has a piece missing from the cache; when no thread expires pieces it ends iff all are cached. |
| `Readers.Reader.Read` | src/bittorrent/reader.cpp:59-123 | A read that returns stops short of the number requested only at the end of the file: it delivers exactly the file's bytes at the position, advances by their number and touches nothing behind. One that fails has not moved, and its window is not all owned and cached: it timed out, at or after its deadline, on data iff all is owned, or the torrent is closed, or paused. No sleep for ownership when the window is owned. With no thread expiring pieces it succeeds iff its window is owned and cached. Whatever its outcome, pieces of its window not owned when looked at end at priority 7, those read ahead up to the file's last at 6 or more, with the deadlines that go with it, and all others keep theirs, unless another thread sets them. |
| `Readers.Reader.ReadStored` | src/bittorrent/reader.cpp:83-103 | The loop over partial storage reads of owned pieces delivers the same slice of the file; it fails only for a storage error or an empty transfer. |
| `Readers.Reader.ReadLegacy` | src/bittorrent/reader.cpp:59-103 | The legacy read looks ahead and waits as the other does, delivers the same bytes, stopping short only at the end of the file, and fails for want of ownership iff its window is not owned, else only for the storage. |
| `Readers.Reader.Seek` | src/bittorrent/reader.cpp:147-174 | Moves to the target iff it lies in 0..size, and raises the pieces from there on as a read of one byte would; else answers -1 and changes nothing. |
| `Readers.GaveUpLate` | src/bittorrent/reader.cpp:73-80 | An operation gives up for lack of time only with a timeout, and not before it has passed. |
| `RangeStreams.ReadsConcatenate` | src/bittorrent/reader.cpp:59-123 | The bytes of any sequence of reads, put together, are those of the file from the first position to the sum of the counts or the end of the file, whichever comes first. |
| `RangeStreams.SeekThenRead` | src/bittorrent/reader.cpp:147-174 | A read after a seek gets the bytes at an offset from the start, or the file's last ones after a seek from the end; a seek from the current position tells the sum; a target outside the file is answered with -1 and moves nothing. |
| `RangeStreams.Execute` | src/bittorrent/reader.cpp:59-174 | Any program of reads and seeks gets from a reader the answers a byte array with the file's contents would give. It stops only at a read whose pieces were not all owned and cached in time; with no thread expiring pieces it goes through iff those of every read are. |
| `RangeStreams.RangeInputStream.Read` | src/api/mime/multipart.cpp:28-36 | Delivers the next bytes of the range: as many as asked for, or all that are left up to the end of the range or of the file, whichever comes first; it fails only if the pieces of those bytes were not all owned and cached in time. |
| `RangeStreams.RangeInputStream.Transfer` | src/api/mime/multipart.cpp:28-36 | Reads until an empty one concatenate to the whole range and end at byte min(start + length, file size) (section 14.2 of RFC 9110); they stop before iff bytes are left, whose pieces were not there in time. With no thread expiring pieces the transfer is complete iff those of the whole range are owned and cached. |
| `RangeStreams.OpenInputStream` | src/api/mime/multipart.cpp:47-53 | Opens iff the start of the range lies in 0..size; the stream then holds file[start..min(start + length, size)]. |
| `RangeStreams.Multipart.ReadNextPart` | src/api/mime/multipart.cpp:74-86 | Hands out the ranges one after the other, then nothing. |
| `RangeStreams.Multipart.SendPart` | src/api/mime/multipart.cpp:28-53 | A part is file[start..min(start + length, size)], or fails because the range starts outside the file or its bytes were not there in time. |
| `RangeStreams.Multipart.Respond` | src/api/mime/multipart.cpp:47-86 | The answer holds the ranges in order, each once and with the bytes file[start..min(start + length, size)] (section 14.6 of RFC 9110). It is cut short only at a range that starts outside the file or whose pieces were not there in time; with no thread expiring pieces it is complete iff every range starts in the file and its pieces are owned and cached. |
| `Buffering.BufferCovers` | src/bittorrent/file.cpp:140-184 | For a non-empty file every byte of the first and last bytes asked for (all of them when they meet) lies in a buffered piece, and only pieces of the file are buffered. |
| `Buffering.SelectedTimes` | src/bittorrent/file.cpp:164-184 | Asked for some first and some last bytes, a piece is selected iff it holds a byte asked for: once for bytes of each end it has, or once when the ends meet. |
| `Buffering.SelectedBesides` | src/bittorrent/file.cpp:140-184 | Asked for none at an end, a file selects besides the pieces of the bytes asked for at most the one piece of that empty section. |
| `Buffering.SettledIff` | src/bittorrent/file.cpp:105-184 | Of what is selected nothing is missing iff each byte asked for lies in a piece that is owned, or fully received and without bytes of both ends. |
| `Buffering.EmptySection` | src/bittorrent/file.cpp:140-146 | A section of no bytes selects the piece of its offset if the offset is not piece-aligned, or is 0 and pieces are longer than a byte; otherwise it selects nothing. |
| `Buffering.EmptyFileSelects` | src/bittorrent/file.cpp:164-184 | An empty file buffers nothing iff it starts at a piece boundary, and not at offset 0 unless pieces are one byte long. |
| `Buffering.NothingAskedSelects` | src/bittorrent/file.cpp:164-184 | Asked for no bytes, a non-empty file buffers nothing iff it starts and ends at piece boundaries, and not at offset 0 unless pieces are one byte long. |
| `Buffering.BufferingInvariant` | src/bittorrent/file.cpp:58-71 | In every run of operations the buffer size is the total of the buffered pieces, and buffering means it is positive. |
| `Buffering.BufferingLasts` | src/bittorrent/file.cpp:123-184 | A file buffers iff it was buffering, or was made to buffer something, and since then no check found nothing missing, no priority was set and no buffering selected nothing. |
| `Buffering.MemoryOverRuns` | src/bittorrent/file.cpp:58-71 | In every run a file's priority is the one last set, and its buffer what was last selected, or nothing since a later setting of the priority. |
| `Buffering.File.constructor` | src/bittorrent/file.cpp:12-31 | A new file does not buffer, also when it is not wanted. |
| `Buffering.File.SetPriority` | src/bittorrent/file.cpp:58-71 | Forgets the buffer and passes the priority on. |
| `Buffering.File.AddBufferPieces` | src/bittorrent/file.cpp:148-162 | Appends exactly the section's pieces, adds their sizes, and gives them top priority and no delay. |
| `Buffering.File.Buffer` | src/bittorrent/file.cpp:164-184 | The buffer is exactly the selection, which `Buffering.SelectedTimes` gives in bytes; its pieces get top priority and no delay, others keep theirs; and the file buffers iff it is not empty. |
| `Buffering.File.GetBufferBytesMissing` | src/bittorrent/file.cpp:105-110 | Between 0 and the buffer size; 0 only if every buffered piece is owned or fully received, and 0 whenever all were owned. When ownership did not move it is exact, and 0 iff each piece is owned, or fully received and not buffered twice. |
| `Buffering.File.GetBufferingProgress` | src/bittorrent/file.cpp:117-121 | A percentage from 0 to 100: that of the buffered bytes owned or received when ownership did not move, 100 when the file does not buffer; for one that does, 100 only when every piece is owned or received. |
| `Buffering.File.VerifyBufferingState` | src/bittorrent/file.cpp:123-138 | The flag falls iff nothing is found missing, which means every buffered piece is owned or received, and is so when all were owned. |
| `Buffering.VerifyFiles` | src/bittorrent/torrent.cpp:351-362 | Visits every file, one after the other, while other threads may buffer and prioritise files around the visits, and finds buffering iff some visit left its file buffering; each flag falls iff nothing was missing at that visit, going by what the handle said after the steps other threads had taken by then. |
| `Buffering.VisitedMeans` | src/bittorrent/torrent.cpp:351-362 | A visit only ever ends buffering: it does when every buffered piece was owned to begin with, and only if at that moment each was owned or received. |
| `Buffering.EndBuffersIff` | src/bittorrent/file.cpp:164-184 | A file buffers when the check ends iff its visit left it so and nothing stopped it since, or it was made to buffer since and not stopped. |
| `Buffering.AnswerIsRightIff` | src/bittorrent/torrent.cpp:351-362 | The answer "none" is right about the files at the end iff none was made to buffer since its visit; the answer "some" iff some file is in one of those two cases. |
| `Locks.StepKeepsInv` | src/bittorrent/torrent.cpp:73-96 | Every step, waits on condition variables included, keeps mutexes taken in rank order and each held by one thread. |
| `Locks.NoCircularWait` | src/bittorrent/service.cpp:354-377 | No chain of threads, each waiting for a mutex of the next, closes. |
| `Locks.StuckWaitsForSleeper` | src/bittorrent/torrent.cpp:73-96 | When no thread can step, each unfinished one sleeps or waits through a chain for a reader asleep until a piece arrives. |
| `Locks.NoDeadlock` | src/bittorrent/service.cpp:306-379 | In every reachable state with an unfinished thread, a thread can step or one sleeps. |
| `LockPaths.PathNested` | src/bittorrent/service.cpp:213-379 | Every operation, start-up under the instance mutex included, with any torrents, files and pieces visited, takes its mutexes in rank order, so never two of one class. |
| `LockPaths.ServiceNeverDeadlocks` | src/torrest.cpp:82-89 | For any threads executing any operations, in every run: no circular wait, and a stuck state traces back to sleeping threads. |
| `LockPaths.HeldTorrentsDeadlock` | src/bittorrent/service.cpp:354-377 | If a progress tick kept the torrents' mutex while taking the service's, a run with a resetting settings update would end in a circular wait. |
| `Wakeups.StepKeepsInv` | src/bittorrent/torrent.cpp:48-96 | Every step of readers, storing threads and expiring ones keeps: one holder of the mutex, and a reader asleep while its piece is cached only until the storing thread that holds the mutex notifies. |
| `Wakeups.NoLostWakeup` | src/bittorrent/torrent.cpp:48-96 | In every run, whenever the mutex is free, no reader sleeps un-notified while its piece is cached. |
| `Wakeups.ServedNext` | src/bittorrent/torrent.cpp:73-96 | A reader whose piece is cached then can take the mutex, and looking it is served, also when its time is over. |
| `Wakeups.FailedReadWaitsOn` | src/bittorrent/service.cpp:261-275 | A reader whose scheduled read fails, so that nothing is stored for it, is not served in any run, and gives up only if it has a timeout. |
| `Wakeups.ServedIffCached` | src/bittorrent/torrent.cpp:73-96 | With the mutex free and no thread left to store its piece, a reader still waiting is served in some run iff its piece is cached. |
| `Wakeups.ExpiredBeforeLook` | src/bittorrent/torrent.cpp:55-96 | A piece that expires between the notification and the reader's look leaves a reader without timeout asleep, with nothing but wake-ups left to happen. |
| `MagnetCodec.DecodeEncode` | src/bittorrent/service.cpp:89-104 | What is written for a magnet is read back, for every number of bytes sizes have and every link shorter than 2^31 bytes whose size fits them. |
| `MagnetCodec.LayoutIs` | src/bittorrent/service.cpp:89-95 | A magnet file holds the size of the link, least significant byte first, then the link, then one byte that is 1 iff it is to be downloaded, else 0. |
| `MagnetCodec.DecodeTruncated` | src/bittorrent/service.cpp:97-104 | A file cut inside the link reads as the link padded with zeros, not to be downloaded. |
| `Registry.LoadIgnoresOrder` | src/bittorrent/service.cpp:788-867 | On a directory whose files are named after what they decode to, loading gives the same torrents and files for every listing order, refused torrents included. |
| `Registry.LoadAny` | src/bittorrent/service.cpp:788-867 | On any directory, however its files are named: what is registered was read from a file and not refused; a file with a format error goes; one that stays and reads as a torrent has its torrent registered; and only those and a magnet file named as another magnet's torrent are deleted. |
| `Registry.LoadAnyKeeps` | src/bittorrent/service.cpp:788-867 | On any directory resume data and torrent files stay only if they decode, to a registered torrent; whole magnet files only if their link is one, of a registered torrent. |
| `Registry.ResumeDataOnce` | src/bittorrent/service.cpp:807-817 | Of resume data for one torrent in several files, one file at most stays. |
| `Registry.ReloadTidies` | src/bittorrent/service.cpp:788-867 | After a reload a magnet file stays iff its torrent was accepted and has no other file, and resume data and torrent files iff it was accepted. |
| `Registry.PartsFileStays` | src/bittorrent/service.cpp:857-866 | After a reload the parts file of a torrent, named by a dot and its hash, is there iff it was and the torrent is registered; so with any number of dots. |
| `Registry.NoTorrentLost` | src/bittorrent/service.cpp:650-656 | A reload registers exactly the torrents that have a file and are not refused: none is lost, and none is gained iff no file was left without its torrent. |
| `Registry.WishAfterReload` | src/bittorrent/service.cpp:807-855 | A reload adds a torrent with the download argument true iff it has resume data, or no torrent file and a magnet that says so. |
| `Registry.AddedAs` | src/bittorrent/service.cpp:658-764 | An addition registers its torrent with the download argument given and leaves a file that reads as it, a magnet's with that argument; it changes nothing else, and nothing at all if it adds nothing. |
| `Registry.FlagAfterReload` | src/bittorrent/service.cpp:696-867 | A reload adds a magnet with the download argument it was added with, unless another file of its torrent is there; a torrent added from a torrent file with true iff there is resume data. |
| `Registry.RemovesOnly` | src/bittorrent/service.cpp:904-920 | A removal deletes only the files of the name asked for, and takes only torrents of that name off, ignoring case. |
| `Registry.InfoHashIs` | src/bittorrent/service.cpp:48-54 | Printed hashes are lower-case hexadecimal and tell torrents apart. |
| `Registry.IequalsIs` | src/bittorrent/service.cpp:869-876 | A lookup takes two hashes for the same iff they differ at most in the case of Latin letters. |
| `Registry.ReloadTwice` | src/bittorrent/service.cpp:788-867 | A second reload changes neither registry nor directory iff the session refuses none of the torrents the first registered. |
| `Registry.StepKeepsInv` | src/bittorrent/service.cpp:213-245 | Each addition, removal, alert and reload keeps a file that decodes to it for every registered torrent. |
| `Registry.RunKeepsInv` | src/bittorrent/service.cpp:658-786 | So does every run of them. |
| `Registry.AbsentRun` | src/bittorrent/service.cpp:904-920 | A torrent that is neither registered nor on disk stays so through every run in which nothing adds it and no alert for it is handled. |
| `Registry.RemovalIsPermanentIffSpelled` | src/bittorrent/service.cpp:869-920 | A removal takes the torrent off the registry however its hash is spelled, but its files go, the parts file too, iff the hash is spelled as stored; otherwise the next reload brings it back. |
| `Registry.RemovalOverRuns` | src/bittorrent/service.cpp:904-920 | Over every run in which nothing adds the torrent and no alert for it arrives: spelled as stored it stays away, otherwise a reload brings it back as long as nothing else took its files. |
| `Registry.OtherSpellingReturns` | src/bittorrent/service.cpp:904-920 | Such a run, for every link to the torrent "a": removed as "A", its magnet stays and the reload registers it. |
| `Registry.LateAlertReturns` | src/bittorrent/service.cpp:213-245 | A resume-data or metadata alert handled when its torrent is gone brings a torrent back at the next reload iff it is that torrent's. |
| `Registry.UnsecuredIff` | src/bittorrent/service.cpp:213-245 | In every run a torrent that had a file besides a magnet has none iff a removal spelled as stored or a reload that refused it took its files, and nothing since wrote it one. |
| `Registry.SplitAlertSafeIff` | src/bittorrent/service.cpp:239-244 | For every run between the metadata alert's two writes, the second leaves each registered torrent a file unless its torrent's files were taken, it was added again as a magnet, and it is still registered with nothing else; so it is safe if no such removal or reload happens. |
| `Registry.SplitAlertLosesTorrent` | src/bittorrent/service.cpp:239-244 | For every link, removing and adding the magnet between the two writes leaves it registered with no file, and the next reload loses it. |
| `Services.TableErase` | src/bittorrent/service.cpp:904-920 | Erasing the one torrent found for a hash erases every entry that matches it ignoring case, and no other. |
| `Services.AnswerTells` | src/bittorrent/service.cpp:658-740 | An addition is answered with success iff it changed the registry, with a duplicate iff the torrent was there, else because it could not be read or was refused. |
| `Services.Service.constructor` | src/bittorrent/service.cpp:106-130 | A service starts with what a reload of its directory gives, hashes pairwise distinct ignoring case. |
| `Services.Service.FindTorrent` | src/bittorrent/service.cpp:869-876 | Finds a torrent iff one has the hash, ignoring case. |
| `Services.Service.AddTorrentWithParams` | src/bittorrent/service.cpp:658-694 | Adds iff there is no such torrent yet and the session accepts; hashes stay pairwise distinct ignoring case. |
| `Services.Service.AddMagnet` | src/bittorrent/service.cpp:696-716 | The whole new state and answer for a magnet, its file written only when saved and added. |
| `Services.Service.AddTorrentData` | src/bittorrent/service.cpp:723-740 | The whole new state and the answer for torrent data. |
| `Services.Service.AddTorrentFile` | src/bittorrent/service.cpp:742-764 | The whole new state and the answer for a torrent file. One already in place is not overwritten: unless it is the file given, the call fails after the torrent was added. |
| `Services.Service.AddTorrentWithResumeData` | src/bittorrent/service.cpp:771-786 | The answer and new registry for resume data. |
| `Services.Service.RemoveTorrent` | src/bittorrent/service.cpp:904-920 | Erases the torrent found and the four files spelled as asked, or changes nothing. |
| `Services.Service.HandleSaveResumeData` | src/bittorrent/service.cpp:213-221 | Writes the resume file, registered or not. |
| `Services.Service.HandleMetadataReceived` | src/bittorrent/service.cpp:223-245 | Writes the torrent file and deletes the magnet file, as one step. |
| `Services.Service.LoadTorrentFiles` | src/bittorrent/service.cpp:788-867 | The collecting loop, the three loading loops and the parts loop do what loading the listing prescribes, and `Registry.LoadAny`, `Registry.ReloadTidies` and `Registry.PartsFileStays` say what that leaves. |
| `Services.Service.RemoveStaleParts` | src/bittorrent/service.cpp:857-866 | Removes exactly the parts files whose name, without leading dots, is no registered torrent's hash. |
| `Services.Service.Reset` | src/bittorrent/service.cpp:373-378 | Removing all torrents and loading is a reload. |
| `RateLimits.RateLimitInvariant` | src/bittorrent/service.cpp:451-454 | In every run of start, reconfigurations and ticks: limited means the session has the configured limits, not limited means it has none and the option is on. |
| `RateLimits.LimitsAreThoseGiven` | src/bittorrent/service.cpp:364-371 | In every run the session has the limits last configured, at the start or by the last reconfiguration, or none (0 and 0), and that only while the option last configured is on. |
| `RateLimits.TickDecides` | src/bittorrent/service.cpp:637-648 | After a tick the limits apply iff nothing buffers or the option is off. |
| `RateLimits.LiftedIff` | src/bittorrent/service.cpp:364-371 | The session is unlimited iff a tick found a file buffering with the option on and nothing since brought the limits back. |
| `RateLimits.RateControl.constructor` | src/bittorrent/service.cpp:106-120 | A service starts limited, with the configured limits. |
| `RateLimits.RateControl.Reconfigure` | src/bittorrent/service.cpp:364-371 | The new settings replace the old ones whole, and their limits reach the session iff they apply now. |
| `RateLimits.RateControl.SetBufferingRateLimits` | src/bittorrent/service.cpp:637-648 | Switches the session's limits on a change, and only with the option on. |
| `Progress.PercentReached` | src/bittorrent/service.cpp:66-78 | A truncated percentage reaches a positive limit iff the exact ratio does, for every numerator. |
| `Progress.LimitInRatios` | src/bittorrent/service.cpp:333-351 | A limit is reached iff the seconds of seeding, their ratio to the other active time, or that of bytes uploaded to downloaded, is at least the one enabled, as real numbers. |
| `Progress.LimitStaysReached` | src/bittorrent/service.cpp:333-351 | A limit that a complete torrent reached stays reached as time goes by and it uploads more, unless its seeding clock starts in between. |
| `Progress.ForgetsIff` | src/bittorrent/service.cpp:333-351 | A reached limit can later not be reached, because the clock of the time finished gives way to that of the time seeding, iff the time limit is over a second, or there is none and there is a time ratio. |
| `Progress.PausedIff` | src/bittorrent/service.cpp:314-351 | Over every run of ticks, pauses and resumes, a torrent is paused iff something paused it, a tick that found a limit reached included, and nothing has resumed it since. |
| `Progress.PausedIsSkipped` | src/bittorrent/service.cpp:314-317 | A paused torrent adds nothing to any tick until it is resumed. |
| `Progress.CheckSeeding` | src/bittorrent/service.cpp:331-351 | A finished torrent is paused iff some enabled limit is reached in exact arithmetic, and otherwise left as it is. |
| `Progress.TickTorrent` | src/bittorrent/service.cpp:314-352 | One that is paused or not usable is passed over; another has all its files checked, adds what it reports, and is paused if it is finished and a limit is reached, and otherwise only by another thread. Other threads' requests to its files are served meanwhile. |
| `Progress.UpdateProgress` | src/bittorrent/service.cpp:306-362 | Does that for each torrent; totals are the sums over those that take part, and with the option on the rate limits apply iff no visit left a file buffering. |
| `Progress.TotalsAreSums` | src/bittorrent/service.cpp:314-331 | The totals are the sums of download rates, of upload rates, and, over torrents not finished, of wanted and of wanted and done bytes, of the torrents that take part. |
| `Progress.PercentageIs` | src/bittorrent/service.cpp:360-361 | Overall progress is the exact percentage of wanted bytes that are done, 100 when none are wanted. |
| `Progress.LimitsMatchFilesIff` | src/bittorrent/service.cpp:306-356 | What the tick decides is right about the files of these torrents when it ends, in the exact cases of `Buffering.AnswerIsRightIff`: limits brought back are iff no file was made to buffer since its visit. |
| `Progress.ProgressInRange` | src/bittorrent/service.cpp:360-361 | Overall progress is between 0 and 100 when no torrent has done more than it wants, and 100 iff all that is wanted is done. |
| `Items.FolderPathInjective` | src/api/controller/torrents.h:196-204 | Looking folders up by path string is looking them up by their first component. |
| `Items.JoinedIs` | src/api/controller/torrents.h:196-199 | A subfolder's path is the components of the folder and its name, joined with single slashes, and a slash. |
| `Items.FilePlaced` | src/api/controller/torrents.h:178-196 | A file one component below the folder is an entry of its own, a deeper one is in the subfolder its next component names and in no other, and a file elsewhere is not listed. |
| `Items.FilesAtAppend` | src/api/controller/torrents.h:176-190 | Files are listed in the order they have in the torrent. |
| `Items.TrailingSlash` | src/api/controller/torrents.h:169-173 | A trailing slash in the folder asked for changes nothing. |
| `Items.FolderShows` | src/api/controller/torrents.h:206-254 | A subfolder is shown with its path, the number of its files and the sum of their sizes; with status also the sums of what is done and wanted of them, and the percentage done. |
| `Items.Conservation` | src/api/controller/torrents.h:206-246 | Distinct folders that cover the deeper files add up to them in count, size, progress and the wanted parts of each. |
| `Items.Partition` | src/api/controller/torrents.h:187-194 | Each file strictly below the folder is one entry or is in one subfolder. |
| `Items.ListingConserves` | src/api/controller/torrents.h:178-256 | The folders listed have distinct paths, and their counts and lengths with the listed files account for every file below the folder once. |
| `Items.TotalsOrdered` | src/api/controller/torrents.h:213-245 | In every folder what is wanted and done is at most what is done, and that at most the total. |
| `Items.TorrentItems` | src/api/controller/torrents.h:162-261 | The answer lists the files at the level in order and one entry for each subfolder with its exact totals, and is an error iff a folder was asked for and no file lies below it. |
| `Unescape.UnescapeString` | src/utils/utils.cpp:43-81 | The cursor loop decodes as the grammar of encoded strings prescribes, whose characters `Unescape.DecodesCharacters` gives in numbers, and throws where that refuses. |
| `Unescape.DecodesEveryEncoding` | src/utils/utils.cpp:43-81 | Decoding undoes every encoding, whichever way each byte is encoded (section 2.1 of RFC 3986, and '+' for a space). |
| `Unescape.DecodesCharacters` | src/utils/utils.cpp:43-81 | A percent sign and hexadecimal digits of values h and l, upper or lower case, decode to 16 h + l, and without two such digits to nothing; '+' to a space, any other byte to itself. |
| `Unescape.RefusedIffNoEncoding` | src/utils/utils.cpp:50-75 | A string is refused iff it encodes nothing, that is iff a percent sign lacks two hexadecimal digits. |
| `Unescape.EveryStringHasEncoding` | src/utils/utils.cpp:43-81 | Every byte string is the decoding of some string. |
| `Unescape.LengthBounds` | src/utils/utils.cpp:43-81 | The result is no longer than the input and no shorter than a third of it. |
| `ListenInterfaces.JoinStringVector` | src/utils/utils.cpp:28-41 | Joins with commas, nothing before the first entry. |
| `ListenInterfaces.SplitJoin` | src/utils/utils.cpp:28-41 | Splitting the joined string gives the entries back when none holds a comma. |
| `ListenInterfaces.ExplicitInterfaces` | src/bittorrent/service.cpp:604-616 | The loop yields the comma-separated entries in order, an empty last one included, each with the default port iff it has none. |
| `ListenInterfaces.EntriesKept` | src/bittorrent/service.cpp:604-618 | The joined result splits into exactly those entries, and each ends with a port. |
| `ListenInterfaces.HasPortIff` | src/bittorrent/service.h:124 | An entry has a port iff it is something followed by a colon and digits, so never when its last character is no digit. |
| `ListenInterfaces.PortsKept` | src/bittorrent/service.cpp:610-612 | An entry with a port, any number in decimal digits, is kept; one without, as an address in brackets, gets the default port after a colon. |
| `ListenInterfaces.WhiteSpaceIgnored` | src/bittorrent/service.cpp:571 | White space anywhere in the setting changes nothing. |
| `ListenInterfaces.BranchTaken` | src/bittorrent/service.cpp:573-603 | An empty setting, one that starts with "auto:", and any other take different branches, the second with the rest of the setting. |
| `ListenInterfaces.NormalisedAgain` | src/bittorrent/service.cpp:569-618 | Normalising the result again gives it back iff the first entry is not the bare word "auto". |
| `ListenInterfaces.AutoTwice` | src/bittorrent/service.cpp:569-618 | The list "auto" becomes "auto:" and the port, and that reads as automatic interfaces. |
| `ListenInterfaces.ConfigureListenInterfaces` | src/bittorrent/service.cpp:569-618 | An empty setting takes the default interfaces, an "auto:" one goes to the interface search, any other is the normalised explicit list. |

## Left out

- libtorrent, boost and oatpp: reduced to what is used of them. The handle's ownership only grows, stored piece data is the torrent's, the download queue has at most one entry a piece, none of them owned, with no more bytes than the piece; decoding a torrent or magnet is an arbitrary function to a digest.
- Readers.Reader.SetPiecesPriorities: of a piece whose priority another thread sets meanwhile nothing is said; asking for a priority and raising it are one step.
- Buffering.File.Buffer: one step with respect to the piece priorities other threads set.
- Readers.Reader.constructor: the read-ahead in pieces is a parameter; the floating-point product it comes from is not modelled.
- Registry.WishAfterReload: what is downloaded of a torrent with resume data depends on file priorities saved there, which are not modelled.
- Registry.StepKeepsInv: an alert handler is one step here; `Registry.SplitAlertSafeIff` is about its two writes. Failing file operations are not modelled, and the two directories keep their paths.
- MagnetCodec.Decode: a magnet file too short to hold a size leaves that size unset in the code; the model skips such a file. Sizes of 2^31 or more are not modelled. The registry's sizes have 8 bytes.
- Buffering.File.VerifyBufferingState: the flag is read before and after taking the mutex in the code; here both reads are one, as only the last one read decides.
- 64-bit overflow of sizes, offsets and of the products by 100 in the seeding limits: numbers are unbounded except for the 32-bit piece indexes and offsets.
- Paths in a listing are sequences of components; parsing them is the path library's. Progress percentages are exact rationals.
- Interface enumeration for automatic listen interfaces, the rest of the session settings, settings files and their validation.
- HTTP endpoints other than the folder listing, the single-range body, headers, range parsing, MIME types, logging, program start and shutdown, language bindings.
- Status mappings, available-space check, rebuilding a torrent's list of files, and priorities set by path prefix: they would add only easy members.
- Unlocked reads of whether and how many torrents there are, thread joins on destruction, and locks inside libraries.
