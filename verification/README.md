# Verified model of the BFD file layers and the XTC simulator

This project models the parts of xtc-base whose correctness is spread over many calls, and proves what
they are there for:

- **The file-descriptor cache** (`cache.c`, with the positions of `bfdio.c` and the opening calls of
  `opncls.c`).  Open files sit on a circular, doubly linked list, the least recently used ones are closed
  behind the caller's back and reopened on the next access.  Theorem (`CacheRun.Run`, and from the start
  `CacheRun.StartRun`): for every list of opens, reads, writes, seeks and closes, on files and on archive
  members at any depth, and of tells on files, from which a caller leaves out what the rules do not permit
  when its turn comes (`Permitted`), the replies, the file contents and every position are those of a
  library that never closes a file; a call fails for the cache's sake exactly if an `fclose` in it reports
  an error, and only in a state where it, or the limit, has a file closed.  The invariant behind it
  (`Sound`) says that a BFD has a stream exactly when it is on the list, and that at most max(10, files that
  may not be closed + 1) are open.
  The code of the model decides on the linked list and its count of open files (`LruRing`), whose updates
  refine push-front, remove, move-to-front and "remove the last one that may be closed" on a sequence; that
  links, count and sequence agree is carried through the runs.
- **Archives** (`archive.c`, `archive64.c`): member names in three styles, the extended name table, three
  kinds of symbol map, thin and ordinary archives.  Theorems: the positions in the symbol map, computed
  before any member is written, are the positions where the headers are written, exactly when the members
  in front are of a kind that the map's arithmetic accounts for (`Archive.MapAgrees`); opening what was
  written gives back the map, the name table and every member in order with its name, size and contents,
  exactly if the first member does not look like a map or a table (`ArRoundTrip.Reopened`,
  `ArRoundTrip.ArchiveComesBack`, `ArRoundTrip.SymbolFindsOwner`).
- **The a.out linker's symbol numbering** (`aoutx.h`).  Theorem (`Linker.FinalLink.Run`): through a whole
  final link, with stripping, discarding, duplicate header files and stripped symbols that a relocation
  forces out after all, every number is the position of the right record, no entry is written twice, no
  entry that is kept is lost, a stripped one is written only if a relocation asks for it, and every
  relocation gets the index of the right record, or -2 for an entry that can have none.
- **ZMAGIC layout** (`aoutx.h`), **in-memory files** (`bfdio.c`), **the doubling of percent signs in place**
  (`bfd.c`).
- **The XTC simulator** (`softsim`): branch delay, call and return, immediate prefixes of any length, and
  comparisons followed by conditional branches, over every run; and the monitor's number parser and printer
  (`libxtcapp`).

State that the C code updates in place is a class with `modifies` clauses (`LruRing`, `Cache`, `FinalLink`,
`Simulator`, `MemFile`), buffers that it rewrites in place are arrays (`CleanTable`, `BuildTable`, `Shuffle`,
`MemFile`, the registers and memory of `Simulator`), and its loops are loops.  Each such method is proved
against a function or predicate on values.  Files are byte sequences.  Whether `fclose` reports an error is
left open, so that the theorems hold for both answers; a file that exists can be opened.

## What turned out not to hold

The code is modelled as it is.  Where a property that one would expect fails, there is a lemma with the
exact condition and a concrete case.

- A `SEEK_SET` before the start of a file fails, and if the file had been closed by the cache its position
  is lost (`SeekTransparent`, `LostPosition`).
- `bfd_tell` on a member of an archive that the cache has closed answers relative to the member's own
  `where` (`TellTransparent`, `ClosedArchiveTell`).
- `bfd_cache_close_all` loses the position of an open archive through which a member was accessed
  (`AllClosedTransparent`, `StaleArchive`).
- The size of a read from a member is clipped with 64-bit arithmetic that can wrap (`ClipExact`, `ClipWraps`).
- A short member name with a space is cut off on reading, unless its terminator is in reach
  (`ShortRecovered`, `FifteenWithSpace`); a name in the name table survives unless the in-place cleanup
  touches it (`TableRecovered`, `BackslashLost`).
- A first member named like a symbol map that the target's reader knows, or like a name table, is mistaken
  for one where there is no name table (`Reopened`, `ShortMistaken`, `MapNamedMember`).  The reader of
  64-bit targets does not know `__.SYMDEF`.
- Walking over an archive goes from header to header; the contents of a member can start before those of the
  one before it, if a header states a size below the length of the name behind it (`NeverBack`, `GoesBack`).
- The BSD and 64-bit maps count the contents of members of a thin archive, which are not there (`MapIsRight`,
  `PredictDrift`, `ThinBsdMap`).  The COFF and 64-bit maps would ignore names stored after the header; no
  target writes such names with those maps.
- A relocation against a new, indirect or warning entry is given the index -2 (`ForcedIndex`,
  `NewEntryHasNoNumber`).
- Weak data and weak absolute symbols that no input file brings out become weak bss and weak text
  (`WeakOtherType`, `WeakDataBecomesBss`).
- A branch to 0xFFFFFFFF is no branch (`LastWordIsNoTarget`, `JumpToLastWord`); BRIUGT branches on equal operands as well
  (`GreaterOrEqual`, `EqualIsTaken`).
- With contiguous mapping, data placed below the end of text shrinks the text section (`ContiguousText`,
  `TextShrinks`).

## Model

| member | source | states |
|---|---|---|
| LruRing.Node.constructor | binutils-2.23.1/bfd/bfd.c:64-64 | the links of a BFD that is on no ring |
| LruRing.LruRing.constructor | binutils-2.23.1/bfd/cache.c:74-82 | an empty ring over the given links: no last file, nothing counted |
| LruRing.LruRing.Insert | binutils-2.23.1/bfd/cache.c:86-102 | push-front: both link directions again follow the sequence, and no other file moves |
| LruRing.LruRing.Snip | binutils-2.23.1/bfd/cache.c:106-117 | removal at any place, including the front and the only element |
| LruRing.LruRing.Delete | binutils-2.23.1/bfd/cache.c:121-140 | the BFD leaves the sequence and the count goes down: links, count and sequence agree again |
| LruRing.LruRing.Enter | binutils-2.23.1/bfd/cache.c:473-477 | the BFD is the first of the sequence and is counted: links, count and sequence agree again |
| LruRing.LruRing.Touch | binutils-2.23.1/bfd/cache.c:201-213 | move-to-front of the BFD sequence, the others in their old order; the count stays |
| LruRing.FindVictim | binutils-2.23.1/bfd/cache.c:151-165 | the backward scan over the links ends, and finds the last BFD of the sequence that may be closed, or none exactly if there is none |
| LruRing.SnipForward | binutils-2.23.1/bfd/cache.c:106-117 | after the two link updates of a removal, the forward links follow the shorter sequence |
| LruRing.SnipBackward | binutils-2.23.1/bfd/cache.c:106-117 | the same for the backward links |
| LruRing.PushForward | binutils-2.23.1/bfd/cache.c:86-102 | after the link updates of an insertion, the forward links follow the longer sequence |
| LruRing.PushBackward | binutils-2.23.1/bfd/cache.c:86-102 | the same for the backward links |
| CacheModel.EvictKeeps | binutils-2.23.1/bfd/cache.c:145-175 | closing the victim keeps the invariant, and every BFD's logical position and the files |
| CacheModel.RoomKeeps | binutils-2.23.1/bfd/cache.c:465-478 | after making room there is room: a second check finds nothing to close, whatever cannot be closed |
| CacheModel.FopenKeeps | binutils-2.23.1/bfd/cache.c:551-619 | entering the new stream after making room closes nothing else and keeps the bound and the invariant |
| CacheModel.TwoCacheable | binutils-2.23.1/bfd/cache.c:145-175 | with two closable files on the list, the ones that must stay number at most its length less two |
| CacheModel.EvictIs | binutils-2.23.1/bfd/cache.c:166-175 | noting the offset of the BFD that the scan found and deleting it is closing the victim of the sequence |
| CacheModel.ReadInChunks | binutils-2.23.1/bfd/cache.c:309-343 | reading in chunks up to the first short one is one read |
| CacheModel.SeekTransparent | binutils-2.23.1/bfd/bfdio.c:280-357 | a seek leaves what it would on an always open stream, if and only if it is in range, relative, the file was open, or it was at 0 |
| CacheModel.TellTransparent | binutils-2.23.1/bfd/bfdio.c:229-250 | a tell answers from the stream's real position, if and only if the BFD is no member, the stream is open, or the two agree |
| CacheModel.AllClosedTransparent | binutils-2.23.1/bfd/cache.c:525-534 | closing everything keeps all positions if and only if no open archive has had its stream moved since its own position was noted |
| CacheModel.AllClosedKeeps | binutils-2.23.1/bfd/cache.c:525-534 | closing everything keeps positions and invariant when no archive is open |
| BfdCache.Cache.constructor | binutils-2.23.1/bfd/cache.c:74-82 | no BFD, nothing on a new ring over the given links, and the ring agrees with that |
| BfdCache.Cache.Counted | binutils-2.23.1/bfd/cache.c:74-82 | whenever the ring agrees with the state, the count of open files is the number of files on the ring |
| BfdCache.Cache.CloseOne | binutils-2.23.1/bfd/cache.c:145-175 | the file that the scan over the links finds is the victim of the sequence; it is closed and its position noted, also when fclose fails; failure is reported exactly if fclose failed |
| BfdCache.Cache.CacheInit | binutils-2.23.1/bfd/cache.c:465-478 | the count decides whether room is made first; the BFD goes to the front and is counted, or the ring without the victim is left if fclose failed; links and count agree with the state |
| BfdCache.Cache.Fopen | binutils-2.23.1/bfd/cache.c:562-608 | which files can be opened, which are created or truncated, and that nothing else changes |
| BfdCache.Cache.OpenStream | binutils-2.23.1/bfd/cache.c:562-618 | with room, opening succeeds exactly if the file can be opened |
| BfdCache.Cache.OpenFile | binutils-2.23.1/bfd/cache.c:551-619 | opening a closed BFD: at most one file is closed for it, failure means a failed fclose or a missing file and changes nothing that can be seen |
| BfdCache.Cache.Lookup | binutils-2.23.1/bfd/cache.c:194-230 | the stream of the outermost file is at the front and at its logical position (or 0 when no seek was asked for), or a fault leaves all views alone |
| BfdCache.Cache.CacheRead1 | binutils-2.23.1/bfd/cache.c:257-306 | one transfer: the bytes of the file at the logical position |
| BfdCache.Cache.CacheRead | binutils-2.23.1/bfd/cache.c:308-343 | the chunked transfer is a single read; zero bytes touch nothing |
| BfdCache.Cache.Read | binutils-2.23.1/bfd/bfdio.c:178-205 | the bytes that an always open stream would give, clipped at the member's end, and the position moved by as many |
| BfdCache.Cache.Write | binutils-2.23.1/bfd/bfdio.c:207-227 | the file is overwritten at the logical position and extended; a file not open for writing is left alone, and the answer is -1 unless there was nothing to write |
| BfdCache.Cache.Tell | binutils-2.23.1/bfd/bfdio.c:229-250 | the answer and the new noted position, at any nesting depth |
| BfdCache.Cache.CacheSeek | binutils-2.23.1/bfd/cache.c:241-248 | seek of the real stream, reopened at 0 for an absolute seek |
| BfdCache.Cache.Seek | binutils-2.23.1/bfd/bfdio.c:280-357 | the view after a seek, including the shortcut cases and the tell after a failure |
| BfdCache.FilePosition | binutils-2.23.1/bfd/bfdio.c:314-324 | the loop over enclosing archives adds all origins |
| BfdCache.Cache.Redetermine | binutils-2.23.1/bfd/bfdio.c:331-347 | after a failed seek the noted position is told again |
| BfdCache.Cache.CloseAll | binutils-2.23.1/bfd/cache.c:525-534 | the loop over the links closes each file once and ends with an empty ring and a count of 0; the result is true exactly if no fclose failed |
| CacheRun.BfdFopen | binutils-2.23.1/bfd/opncls.c:197-260 | success exactly if the file can be opened and no fault occurs; what becomes of the file; on failure nothing but the file is left changed |
| CacheRun.BfdOpenw | binutils-2.23.1/bfd/opncls.c:622-653 | an empty file, or on a fault no change at all |
| CacheRun.BfdMember | binutils-2.23.1/bfd/archive.c:671-692 | a member starts at position 0 and needs no stream of its own |
| CacheRun.BfdClose | binutils-2.23.1/bfd/cache.c:496-507 | the BFD is gone, all others keep their positions and the bound holds; the result is false exactly if fclose failed on its own stream |
| CacheRun.Perform | binutils-2.23.1/bfd/bfdio.c:178-357 | any one call agrees with the library that keeps all files open, unless an fclose fails in it |
| CacheRun.Run | binutils-2.23.1/bfd/cache.c:145-360 | any list of calls does, made by a caller that leaves out those not permitted when their turn comes: replies, contents and positions; in every state passed through the invariant holds, a call fails only where a file has to be closed, some call fails if and only if an fclose has failed, and in the end the links and the count of the ring are those of the state |
| CacheRun.Links | binutils-2.23.1/bfd/bfd.c:64-64 | links for every BFD of a run |
| CacheRun.StartRun | binutils-2.23.1/bfd/cache.c:74-360 | the same from no open file, for every list of calls and whatever files exist |
| CacheRun.NothingLeftOut | binutils-2.23.1/bfd/cache.c:145-360 | all calls of a list are made if and only if each is permitted after the ones before it |
| CacheRun.AnyIsRead | binutils-2.23.1/bfd/cache.c:194-306 | however many existing files are opened, more than may be open at once too, each is then read from its start if no fclose fails, and no call is left out |
| CacheRun.NothingOpen | binutils-2.23.1/bfd/cache.c:74-82 | the initial state satisfies the invariant and has no positions, whatever files exist |
| CacheRun.ClipExact | binutils-2.23.1/bfd/bfdio.c:183-195 | the clipped size is the member's rest exactly if the sum does not wrap, or wraps far enough |
| CacheRun.ClipWraps | binutils-2.23.1/bfd/bfdio.c:183-195 | a concrete read that is not clipped |
| CacheRun.SliceAfterSeek | binutils-2.23.1/bfd/bfdio.c:178-205 | the bytes after a seek are the member's slice of the outermost file, cut at its size |
| CacheRun.SeekThenRead | binutils-2.23.1/bfd/bfdio.c:178-357 | seek and read on a member at any depth give that slice from every reachable state, whatever the siblings did before |
| CacheRun.SeekThenTell | binutils-2.23.1/bfd/bfdio.c:229-357 | seek to p and tell give p at any depth from every reachable state |
| CacheRun.CacheClosedAt5 | binutils-2.23.1/bfd/cache.c:145-175 | a cache with one file, closed at 5 |
| CacheRun.LostPosition | binutils-2.23.1/bfd/bfdio.c:326-347 | seeking before the start of a file that the cache has closed at 5 fails and leaves it at 0 |
| CacheRun.ClosedArchiveTell | binutils-2.23.1/bfd/bfdio.c:229-250 | a concrete member for which bfd_tell answers -68 at its start |
| CacheRun.StaleArchive | binutils-2.23.1/bfd/cache.c:525-534 | a concrete open archive that closing all files takes back from 68 to 0 |
| ArNames.ShortRecovered | binutils-2.23.1/bfd/archive.c:449-578 | a name stored in the header field comes back if and only if the reader's search for the terminator is not misled |
| ArNames.LongRecovered | binutils-2.23.1/bfd/archive.c:397-429 | a reference into the name table comes back as the string at that offset |
| ArNames.Bsd44Recovered | binutils-2.23.1/bfd/archive.c:501-523 | a BSD 4.4 header announces exactly the length that was written |
| ArTable.Naming.TableHolds | binutils-2.23.1/bfd/archive.c:1533-1722 | each entry's line is in the finished table at the recorded offset, at the start of a line |
| ArTable.SizeTable | binutils-2.23.1/bfd/archive.c:1548-1634 | the first pass computes the exact size of the table, repeated thin names counted once |
| ArTable.PutEntry | binutils-2.23.1/bfd/archive.c:1688-1699 | one line is written behind what is there, inside the table |
| ArTable.PutName | binutils-2.23.1/bfd/archive.c:1642-1719 | one member: a new line, the line of the name before it, or none; and the header field |
| ArTable.BuildTable | binutils-2.23.1/bfd/archive.c:1533-1722 | the second pass fills the table that the first one sized, completely, and gives every member its header field |
| ArTable.CleanTable | binutils-2.23.1/bfd/archive.c:1296-1313 | the cleanup in place is the stated function of the raw bytes, and the byte after them is NUL |
| ArTable.TableRecovered | binutils-2.23.1/bfd/archive.c:1246-1324 | after cleanup the string at a recorded offset is the name, if and only if the name has nothing the cleanup rewrites |
| ArTable.BackslashLost | binutils-2.23.1/bfd/archive.c:1301-1313 | a concrete name of 17 characters that comes back with another character |
| ArMembers.CopyContents | binutils-2.23.1/bfd/archive.c:2193-2209 | copying in buffers copies everything |
| ArMembers.WriteHeader | binutils-2.23.1/bfd/archive.c:1771-1821 | the header bytes with the long name, or failure exactly if the size has more than ten digits |
| ArMembers.WriteMember | binutils-2.23.1/bfd/archive.c:2182-2215 | the member's bytes with padding to even length, or failure exactly if the size does not fit |
| ArMembers.WriteMembers | binutils-2.23.1/bfd/archive.c:2178-2216 | all members one after the other, and the position of each header |
| ArMembers.PiecesEnd | binutils-2.23.1/bfd/archive.c:2178-2216 | the position of header k is the length of everything before it |
| ArReader.MemberRead | binutils-2.23.1/bfd/archive.c:449-578 | reading a written header gives the name, size and position of the contents |
| ArReader.WalkArchive | binutils-2.23.1/bfd/archive.c:747-767 | iterating with the next-position rule is the specified walk |
| ArReader.WalkIncreases | binutils-2.23.1/bfd/archive.c:747-767 | on any bytes whatever, each header lies behind the one before it by at least a header and the size that one states, so the walk ends |
| ArReader.NextIs | binutils-2.23.1/bfd/archive.c:747-767 | on any bytes, the next position is that of the header plus the size in it, rounded up: what the name takes off the size the addition of 64 bits gives back |
| ArReader.NeverBack | binutils-2.23.1/bfd/archive.c:501-523 | the next header is not before the start of the contents, if and only if the name is no longer than the size in the header, but for padding |
| ArReader.OriginsIncrease | binutils-2.23.1/bfd/archive.c:747-767 | if all names fit, contents start behind each other |
| ArReader.GoesBack | binutils-2.23.1/bfd/archive.c:501-523 | headers after which the contents of the next member start before those of this one |
| ArReader.KthMember | binutils-2.23.1/bfd/archive.c:609-702 | at the k-th header the reader finds the k-th member and goes on to header k+1 |
| ArReader.WalkFindsAll | binutils-2.23.1/bfd/archive.c:747-767 | the walk over written members finds exactly them in order and ends exactly at the end of the file |
| ArReader.ContentsFound | binutils-2.23.1/bfd/archive.c:609-702 | the contents are at the position found |
| ArMap.CollectMap | binutils-2.23.1/bfd/archive.c:2246-2360 | the entries are those of the wanted symbols in member order, and the string size is their total |
| ArMap.MapOrdered | binutils-2.23.1/bfd/archive.c:2246-2360 | owners never decrease along the map and are members |
| ArMap.PredictDrift | binutils-2.23.1/bfd/archive.c:2392-2684 | the position a map writer computes is the header's true position plus an explicit drift |
| ArMap.DriftFree | binutils-2.23.1/bfd/archive.c:2392-2684 | unless errors of both signs meet, that drift is zero if and only if each member in front is accounted for exactly, and it has one sign |
| ArMap.MapIsRight | binutils-2.23.1/bfd/archive.c:2392-2684 | a computed position is right if and only if the drift is zero, and so, unless errors of both signs meet, if and only if each member in front is accounted for exactly |
| ArMapFile.SkipTo | binutils-2.23.1/bfd/archive.c:2458-2470 | the inner loop over members ends at the owner's predicted position |
| ArMapFile.WriteSymdefs | binutils-2.23.1/bfd/archive.c:2454-2487 | a pair per symbol, or failure exactly if a position does not fit |
| ArMapFile.WriteOwned | binutils-2.23.1/bfd/archive.c:2641-2654 | all entries of one member and no others |
| ArMapFile.WriteIndex | binutils-2.23.1/bfd/archive.c:2634-2664 | one position per symbol in order, or failure exactly if one does not fit |
| ArMapFile.WriteStrings | binutils-2.23.1/bfd/archive.c:2493-2499 | the names with their terminators, in order |
| ArMapFile.WriteBody | binutils-2.23.1/bfd/archive.c:2392-2684 | the body of each kind of map |
| ArMapFile.WriteMap | binutils-2.23.1/bfd/archive64.c:144-239 | header and body, or failure exactly if a size or position does not fit |
| ArMapFile.MapBodySize | binutils-2.23.1/bfd/archive.c:2392-2684 | the size announced in the header is the size of the body |
| ArMapFile.MapSizeEven | binutils-2.23.1/bfd/archive.c:2392-2684 | it is even, so that the next header is aligned |
| ArMapReader.ParseBsd | binutils-2.23.1/bfd/archive.c:872-938 | the loop reads what the specification of a BSD map says, or refuses |
| ArMapReader.BsdRoundTrip | binutils-2.23.1/bfd/archive.c:872-938 | a BSD map that was written is read back entry for entry |
| ArMapReader.BuildSyms | binutils-2.23.1/bfd/archive.c:1023-1031 | names and positions are paired in order by skipping terminators |
| ArMapReader.ParseIndex | binutils-2.23.1/bfd/archive.c:943-1067 | the loop reads what the specification of a COFF or 64-bit map says, or refuses |
| ArMapReader.IndexRoundTrip | binutils-2.23.1/bfd/archive64.c:42-138 | a COFF or 64-bit map that was written is read back entry for entry |
| Archive.ScanName | binutils-2.23.1/bfd/archive.c:1744-1753 | length and presence of a space |
| Archive.Bsd44Elts | binutils-2.23.1/bfd/archive.c:1728-1766 | which names go behind the header, and with how much padding |
| Archive.Prepare | binutils-2.23.1/bfd/archive.c:2118-2139 | name table and header fields for the chosen style |
| Archive.CheckMembers | binutils-2.23.1/bfd/archive.c:2101-2135 | whether every size fits, and whether a map is wanted |
| Archive.DropOldMaps | binutils-2.23.1/bfd/archive.c:2277-2280 | all leading members whose file name as a whole is __.SYMDEF are dropped, and no others |
| Archive.WriteArmap | binutils-2.23.1/bfd/archive.c:2246-2390 | the map's bytes, or failure exactly if it cannot be represented |
| Archive.WriteTable | binutils-2.23.1/bfd/archive.c:2157-2176 | the name table as a member padded to even size, or failure exactly if its size does not fit |
| Archive.WritePrefix | binutils-2.23.1/bfd/archive.c:2137-2176 | magic, map and name table with its padding |
| Archive.WriteArchive | binutils-2.23.1/bfd/archive.c:2088-2242 | the whole file and the position of each header, or failure exactly if something does not fit |
| Archive.PrefixLength | binutils-2.23.1/bfd/archive.c:2399-2415 | the position that map writers start from is where the first header is written |
| Archive.MapAgrees | binutils-2.23.1/bfd/archive.c:2088-2390 | an emitted map position is that of the header of the owner if and only if the drift in front of it is zero; outside 64-bit maps of thin BSD 4.4 archives, if and only if each member in front is accounted for exactly |
| Archive.ThinBsdMap | binutils-2.23.1/bfd/archive.c:2454-2487 | thin BSD archives that can be written and whose map is wrong |
| ArOpen.LoadTable | binutils-2.23.1/bfd/archive.c:1287-1313 | the table as cleaned in its buffer |
| ArOpen.MapRead | binutils-2.23.1/bfd/archive.c:1072-1124 | a written map is recognised by its field by its target's own reader and comes back |
| ArOpen.NoMapAt | binutils-2.23.1/bfd/archive64.c:56-77 | a target's reader finds no map if and only if the field is none that it looks for: the one of 64-bit targets knows two, the others know all |
| ArOpen.TableRead | binutils-2.23.1/bfd/archive.c:1246-1324 | a written table is recognised and comes back cleaned |
| ArRoundTrip.Reopened | binutils-2.23.1/bfd/archive.c:769-850 | opening a written archive with its target's reader gives back the flavour, the map, the table and the first position, if and only if there is a name table or the first member does not look like one of those to that reader |
| ArRoundTrip.SecondIs | binutils-2.23.1/bfd/archive.c:1042-1060 | behind a COFF map the first position moves if and only if a second map seems to follow whose size, cut to 32 bits, is not 0 |
| ArRoundTrip.NameRecovered | binutils-2.23.1/bfd/archive.c:449-578 | a stored name comes back if and only if its style keeps it |
| ArRoundTrip.EveryoneReadable | binutils-2.23.1/bfd/archive.c:449-578 | if all names are kept, all stored members are readable |
| ArRoundTrip.ArchiveComesBack | binutils-2.23.1/bfd/archive.c:747-767 | reopening and walking yields exactly the stored members and ends at the end of the file |
| ArRoundTrip.SymbolFindsOwner | binutils-2.23.1/bfd/archive.c:707-714 | the element at the index of a symbol is the member that contributed it, if and only if the position in the map is right |
| ArRoundTrip.OnlyThere | binutils-2.23.1/bfd/archive.c:609-702 | a member is found at its own header and at no other position |
| ArRoundTrip.StoreAndList | binutils-2.23.1/bfd/archive.c:2088-2242 | write, reopen, walk: the members, with their contents at the positions found |
| ArRoundTrip.ShortMistaken | binutils-2.23.1/bfd/archive.c:1072-1124 | a short name without spaces looks like a map if and only if it is __.SYMDEF and the target is not a 64-bit one, and like a table if and only if it is ARFILENAMES in the System V style |
| ArRoundTrip.MapNamedMember | binutils-2.23.1/bfd/archive.c:1086-1088 | archives without a map and with one member called __.SYMDEF can be written, and open as what they are if and only if the target is a 64-bit one |
| ArRoundTrip.FifteenWithSpace | binutils-2.23.1/bfd/archive.c:524-549 | a 15-character name with spaces that is cut to one character |
| LinkModel.NoTwice | binutils-2.23.1/bfd/aoutx.h:4771-5250 | no hash entry has two records |
| LinkModel.EmitKeeps | binutils-2.23.1/bfd/aoutx.h:5067-5073 | writing an entry that has no number keeps all numbers right |
| LinkModel.StripKeeps | binutils-2.23.1/bfd/aoutx.h:4931-4936 | so does marking an entry as written without a record, if its name is stripped or it can have none |
| LinkModel.ForceKeeps | binutils-2.23.1/bfd/aoutx.h:4072-4085 | so does asking for an entry that has no number, but for that entry |
| LinkModel.AllRightGrows | binutils-2.23.1/bfd/aoutx.h:5234-5247 | symbols that follow leave the map of a file right: records, or the -2 of entries that can have none |
| LinkModel.WeakOtherType | binutils-2.23.1/bfd/aoutx.h:3612-3633 | a weak symbol keeps its section's weak type if and only if it is in text or bss |
| LinkModel.WeakDataBecomesBss | binutils-2.23.1/bfd/aoutx.h:3612-3633 | a weak symbol of .data that becomes one of .bss |
| Stabs.StabSum | binutils-2.23.1/bfd/aoutx.h:5130-5145 | what is added, modulo 2^64 and with signed characters, is the sum of the string without the digits after each parenthesis |
| Stabs.AddUpIs | binutils-2.23.1/bfd/aoutx.h:5133-5135 | adding character by character in 64 bits is the sum modulo 2^64 |
| Stabs.HeaderTotal | binutils-2.23.1/bfd/aoutx.h:5113-5146 | the total of a header file over its own level of nesting, modulo 2^64 |
| Stabs.SameTotals | binutils-2.23.1/bfd/aoutx.h:5113-5146 | header files that differ in file numbers only have the same total |
| Stabs.DropHeader | binutils-2.23.1/bfd/aoutx.h:5172-5203 | exactly the symbols of this level and its end are marked as dropped |
| Stabs.DropsStep | binutils-2.23.1/bfd/aoutx.h:5181-5202 | how the set of dropped symbols unfolds, symbol by symbol |
| LinkSymbols.Resolve | binutils-2.23.1/bfd/aoutx.h:4888-4899 | the entry at the end of the links, which is no link |
| LinkSymbols.HeaderSymbol | binutils-2.23.1/bfd/aoutx.h:5106-5204 | a header file seen before becomes N_EXCL and its symbols are dropped, another one is noted |
| LinkSymbols.StripSymbol | binutils-2.23.1/bfd/aoutx.h:4912-4936 | a stripped symbol gets no number, nothing is written, its entry counts as written |
| LinkSymbols.KeepSymbol | binutils-2.23.1/bfd/aoutx.h:4938-5231 | a symbol that is not stripped is discarded without a number, or written with the next number, which becomes that of its entry, and with its proper type |
| LinkSymbols.VisitSymbol | binutils-2.23.1/bfd/aoutx.h:4867-5231 | a symbol whose entry is written shares its number; the others are stripped or kept |
| LinkSymbols.OneSymbol | binutils-2.23.1/bfd/aoutx.h:4826-5232 | each round keeps the invariant: numbers right, only symbols that are dropped, stripped, discarded or without a possible record unnumbered, relocations to use the base entry, written records justified |
| LinkSymbols.CollectSymbols | binutils-2.23.1/bfd/aoutx.h:4771-5232 | so does the whole loop, and its buffer holds at most one symbol more than the file |
| Linker.FinalLink.constructor | binutils-2.23.1/bfd/aoutx.h:2893-2899 | entries start unwritten and without number |
| Linker.FinalLink.WriteRecords | binutils-2.23.1/bfd/aoutx.h:5234-5247 | seeking to the noted offset appends to the table, and the offset stays at its end |
| Linker.FinalLink.WriteOther | binutils-2.23.1/bfd/aoutx.h:3554-3671 | what becomes of an entry that no file brought out; a stripped one is written only if it was asked for |
| Linker.FinalLink.WriteEntry | binutils-2.23.1/bfd/aoutx.h:3597-3670 | which kinds of entry get a record, of which type, with which number |
| Linker.FinalLink.EntryIndex | binutils-2.23.1/bfd/aoutx.h:4068-4086 | a needed entry's number, stripped or not |
| Linker.FinalLink.RelocIndex | binutils-2.23.1/bfd/aoutx.h:4027-4101 | none exactly for defined entries; else the record of the symbol or its entry, -2 only for entries that can have no record, 0 only for symbols that are gone; at most the entry itself is written for it |
| Linker.FinalLink.LinkOrderIndex | binutils-2.23.1/bfd/aoutx.h:3675-3725 | the index for a relocation that the linker makes |
| Linker.FinalLink.WriteSymbols | binutils-2.23.1/bfd/aoutx.h:4771-5250 | the symbols of a file: the map is right down to its negative values, at most one record more than symbols, and every record justified |
| Linker.FinalLink.LinkFile | binutils-2.23.1/bfd/aoutx.h:5254-5306 | the map and every relocation index of the file are right, and stripped entries are written only if its relocations, against entries that are not defined, ask for them |
| Linker.FinalLink.LinkFiles | binutils-2.23.1/bfd/aoutx.h:5511-5543 | they are for all files, also after the later ones |
| Linker.FinalLink.WriteOthers | binutils-2.23.1/bfd/aoutx.h:5545-5548 | afterwards every entry that the traversal comes to, itself or behind a warning, is written or stripped, unless it can have no record |
| Linker.FinalLink.LinkOrders | binutils-2.23.1/bfd/aoutx.h:5550-5570 | the linker's own relocations get right indices |
| Linker.FinalLink.Run | binutils-2.23.1/bfd/aoutx.h:5316-5608 | all of this for the finished table, if the traversal comes to every entry itself or through a warning that took its place: no entry twice; every record that of a kept symbol with its type, of an entry that is not stripped, or of one that some relocation asks for; every entry that can have a record and is not stripped has one, in every strip mode; it gives up only on a warning about a warning |
| Linker.OtherKeeps | binutils-2.23.1/bfd/aoutx.h:3554-3671 | writing or stripping such an entry keeps all numbers right |
| Linker.ForcedIndex | binutils-2.23.1/bfd/aoutx.h:4068-4086 | a forced entry's index is its record, and -2 exactly for kinds that have none |
| Linker.NewEntryHasNoNumber | binutils-2.23.1/bfd/aoutx.h:3604-3607 | a concrete entry that is given -2 |
| Linker.NumbersStay | binutils-2.23.1/bfd/aoutx.h:5316-5608 | a number once given never changes |
| Linker.OwnedOnce | binutils-2.23.1/bfd/aoutx.h:5316-5608 | the invariant rules out a second record |
| Linker.AllNumbered | binutils-2.23.1/bfd/aoutx.h:5545-5548 | after the traversal every entry that can have a number and is not stripped has one |
| CpuRuns.BranchDelay | softsim/executor.c:295-330 | in every run a taken branch takes effect after exactly one further instruction |
| CpuRuns.ControlAt | softsim/executor.c:295-330 | the next address, the pending branch and the prefix after each instruction of a run |
| CpuRuns.StraightLine | softsim/executor.c:342-352 | without taken branches, any number of instructions advance by two bytes each |
| CpuRuns.BrKept | softsim/cflow_ops.c:3-12 | br survives any stretch of instructions that leave it alone |
| CpuRuns.CallReturn | softsim/cflow_ops.c:3-17 | a call, any callee that leaves br alone, and a return resume at p+4, each delay slot executed once |
| CpuRuns.LastWordIsNoTarget | softsim/executor.c:299-304 | a branch to the sentinel value falls through |
| CpuRuns.JumpToLastWord | softsim/executor.c:299-304 | a run of two instructions from 0 that branches to 0xFFFFFFFF and goes on at 4 |
| CpuRuns.PrefixIs | softsim/decode.c:22-34 | n prefixes hold the sign-extended concatenation of their fields, modulo 2^32 |
| CpuRuns.ImmediateJoins | softsim/decode.c:8-20 | n prefixes and an 8-bit field give the sign-extended concatenation of all |
| CpuRuns.PrefixCleared | softsim/executor.c:320-326 | any instruction but IMM ends the prefix |
| CpuRuns.Loads | softsim/reg_ops.c:8-16 | n prefixes and LIMR load that value |
| CpuRuns.LoadsAnything | softsim/reg_ops.c:8-16 | from every state without a prefix, two prefixes and LIMR run and load any 32-bit value |
| CpuRuns.CompareFlags | softsim/alu_ops.c:84-100 | the flags after a comparison mean equal, below, and the sign of the 32-bit difference |
| CpuRuns.CompareThenBranch | softsim/cflow_ops.c:19-122 | after a comparison and any prefixes, each conditional branch decides the stated relation of the operands |
| CpuRuns.GreaterOrEqual | softsim/cflow_ops.c:81-90 | BRIUGT decides unsigned greater if and only if the operands differ |
| CpuRuns.EqualIsTaken | softsim/cflow_ops.c:81-90 | it branches on 5 and 5 |
| Simulator.Simulator.constructor | softsim/cpu.c:60-72 | memory, registers and prefix cleared, no branch pending, the flags anything |
| Simulator.Simulator.AluOp | softsim/alu_ops.c:8-82 | register and flag updates in place are the arithmetic step; exactly the unhandled ones and shifts by more than 31 are refused |
| Simulator.Simulator.RegOp | softsim/reg_ops.c:3-37 | register, flag and prefix updates in place are the step |
| Simulator.Simulator.FlowOp | softsim/cflow_ops.c:3-122 | the new pending branch and br are those of the step; a branch not taken leaves none |
| Simulator.Simulator.StoreOp | softsim/mem_ops.c:8-27 | the bytes stored are those of the step, and refused exactly if it refuses |
| Simulator.Simulator.LoadOp | softsim/mem_ops.c:46-80 | registers and special registers after a load, refused exactly if the step refuses |
| Simulator.Simulator.StoreMem | softsim/cpu.c:29-44 | byte by byte, the big-endian number at the address and nothing else |
| Simulator.ReadMem | softsim/cpu.c:6-27 | byte by byte, the big-endian number at the address |
| Simulator.Simulator.ExecuteSingle | softsim/executor.c:295-330 | updating the fields one after the other, through the handler of the instruction, amounts to one step from processor value to processor value, or the instruction is refused |
| Simulator.Simulator.Round | softsim/executor.c:342-352 | fetch from memory, decode with the prefix and execute: one step, or no word to execute, or one that is refused |
| Simulator.Simulator.Run | softsim/executor.c:333-353 | n rounds are a run in the sense of the lemmas above, cut short only where the simulator gives up |
| MemFile.MemFile.constructor | binutils-2.23.1/bfd/bfdio.c:470-577 | an empty file |
| MemFile.MemFile.Read | binutils-2.23.1/bfd/bfdio.c:470-488 | the bytes of a plain file at the position |
| MemFile.MemFile.Realloc | binutils-2.23.1/bfd/bfdio.c:502-510 | growing the buffer keeps its contents |
| MemFile.MemFile.Clear | binutils-2.23.1/bfd/bfdio.c:511-512 | everything from the given place on is zero, nothing else changes |
| MemFile.MemFile.Grow | binutils-2.23.1/bfd/bfdio.c:495-514 | the size grows, the contents stay, and the rest of the allocation is zero |
| MemFile.MemFile.CopyIn | binutils-2.23.1/bfd/bfdio.c:515-516 | the bytes at the position are replaced, nothing else changes |
| MemFile.MemFile.Write | binutils-2.23.1/bfd/bfdio.c:490-517 | a plain write that may extend the file; allocated bytes past the end stay zero |
| MemFile.MemFile.Extend | binutils-2.23.1/bfd/bfdio.c:545-567 | a hole up to the target reads as zero |
| MemFile.MemFile.Seek | binutils-2.23.1/bfd/bfdio.c:525-577 | a plain seek that extends writable files and stops at the end of others |
| MemFile.Perform | binutils-2.23.1/bfd/bfdio.c:470-577 | any one call does what a plain byte sequence does |
| MemFile.Run | binutils-2.23.1/bfd/bfdio.c:470-577 | so does any sequence of calls, in contents, position and replies |
| MemFile.WriteIs | binutils-2.23.1/bfd/bfdio.c:490-517 | growing and copying in make up a plain write |
| MemFile.ReadBack | binutils-2.23.1/bfd/bfdio.c:470-517 | what is written is read back, and ranges beside it are as before |
| MemFile.HolesAreZero | binutils-2.23.1/bfd/bfdio.c:545-567 | seeking past the end makes a hole of zeros and keeps what was there |
| ZMagic.PlaceText | binutils-2.23.1/bfd/aoutx.h:962-1009 | where text goes and how it is padded: its end is page-aligned in memory if the user placed it, else in the file, with less than a page of padding at the default address |
| ZMagic.PlaceData | binutils-2.23.1/bfd/aoutx.h:1011-1045 | data starts in the file where text ends, at a segment boundary in memory unless the user placed it |
| ZMagic.PlaceBss | binutils-2.23.1/bfd/aoutx.h:1041-1065 | a_data is a page multiple, and when bss follows data, a_data + a_bss is max(a_data, data + bss) |
| ZMagic.AdjustZMagic | binutils-2.23.1/bfd/aoutx.h:951-1066 | all of it together for the given sections: bss is the given one, placed behind data unless the user placed it, and the sizes in the header account for it |
| ZMagic.PaddedEnd | binutils-2.23.1/bfd/aoutx.h:980-1009 | the two paddings of a user-placed text section add up to a page-aligned end |
| ZMagic.ContiguousText | binutils-2.23.1/bfd/aoutx.h:1018-1028 | text is extended up to data if and only if data does not lie below its end |
| ZMagic.TextShrinks | binutils-2.23.1/bfd/aoutx.h:1018-1028 | 50 bytes of text at 100 of which 20 are left for data at 120 |
| Percent.CountPercents | binutils-2.23.1/bfd/bfd.c:685-694 | the count of percent signs |
| Percent.MoveUp | binutils-2.23.1/bfd/bfd.c:717-720 | one character moves up by the number of percent signs not yet doubled, and is doubled if it is one; what was moved before stays |
| Percent.Shuffle | binutils-2.23.1/bfd/bfd.c:714-721 | the shuffle in place doubles each percent sign and touches nothing before the string |
| Percent.DoublePercents | binutils-2.23.1/bfd/bfd.c:682-721 | count and shuffle together, with the terminator |
| Percent.PrintsBack | binutils-2.23.1/bfd/bfd.c:685-727 | printing the doubled string as a format gives back the original |
| Monitor.MyStrtol | libxtcapp/irq.c:245-286 | the value of a numeral modulo 2^32, computed from the last digit on, or refusal exactly of what is no numeral |
| Monitor.ParseInteger | libxtcapp/irq.c:288-300 | hexadecimal with prefix, else decimal |
| Monitor.PrintHex | libxtcapp/print.c:9-22 | the eight hexadecimal digits, most significant first |
| Monitor.HexValue | libxtcapp/print.c:9-22 | the digits of a number are a numeral with that value |
| Monitor.PrintThenParse | libxtcapp/irq.c:245-300 | parsing what was printed gives back any 32-bit value |

## Left out

Contracts that say less than one might ask for:

- CacheRun.Run: seeks before the start of a file that is not at its start, `bfd_tell` on archive members, and closing all files while there are archives are left out of a run like calls on BFDs that are not open, because transparency fails for some of them; `SeekTransparent`, `TellTransparent` and `AllClosedTransparent` give the exact conditions for one call.
- ArMapFile.WriteMap: the size of a map does not wrap at 32 bits.
- Linker.FinalLink.Run: symbol values, the `other` and `desc` fields, the string table and dynamic symbols are not modelled.
- Percent.DoublePercents: the branch that cuts the text off when the buffer is full is not modelled.
- MemFile.MemFile.Write: always gets the memory it asks for.
- ArMapReader.BsdRoundTrip: maps whose sizes do not fit 32 bits are excluded, as the format cannot hold them.

What the model does not capture:

- The buffering of stdio, its sticky error flag, short writes, and errors other than those of `fclose`.
- Removing an output file before it is created anew is modelled as truncating it: a name is a file.
- Append mode, `fdopen` on a descriptor that is not at 0, flush, stat and memory-mapped windows, and BFDs that have no I/O vector.
- The links of all BFDs of a run are made before it starts, where the library allocates them with each BFD.
- Hosts on which `char` is unsigned, and those on which `bfd_vma` has 32 bits.
- The table of archive elements that are already open, and headers taken over from other archives.
- Rewriting the paths of thin archives, and members of nested archives in them.
- The i960 byte-order variant, wide HP-UX ids, timestamps, owners and modes: the 32 bytes of the header that hold them are carried along unread.
- The option for traditional archives with truncated names.
- Header numbers written with signs, name lengths that do not fit an int, and maps whose string indices lead outside the map.
- Cyclic links between hash entries: links lead to lower numbers.
- Callbacks of the linker, section contents and the relocation of their words.
- `BFD_ALIGN` near the top of the address range, where it clamps.
- The simulator's UART and trace output, and its second executor that nothing calls.
- Running out of memory, throughout.
- b.out relaxation, the other BFD back ends, and the device drivers of `libxtcapp`.
