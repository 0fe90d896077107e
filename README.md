# Hotline Miami WAD extractor, modelled in Dafny

This project models the core of the Hotline Miami WAD extractor: the binary
reader (`readType`, `readBytes`), the two archive layouts and their extract
functions (`extractVersion1` for Hotline Miami 1, `extractVersion2` for
Hotline Miami 2), and the directory index that version 2 archives carry.
The archive is a byte string with a cursor. The filesystem is an oracle
`io: nat -> Io` that says, for entry `i`, whether creating the parent
directories succeeds, whether the output file can be created, and how many
bytes `fwrite` reports. A run returns the effects it had on the filesystem
(`MakeParents(name)`, `WriteFile(name, bytes)`), whether it succeeded or the
fault it stopped on, and where it left the cursor.

Files and modules:

- `bytes.dfy` (`Bytes`): octets and little-endian fields.
- `reader.dfy` (`Reader`): `BUFFER_SIZE` and the faults. It holds the `fread`-based reads as functions (`ReadFixed`, `ReadSpan`, `Seek`) and the `FILE` stream as a class (`Stream`) whose methods move the cursor.
- `entries.dfy` (`Entries`): `Entry1::read` and `Entry2::read`, which are one decoder with 4-byte or 8-byte size and offset fields. It also holds the table loop both extract functions run, and the table's encoding.
- `extraction.dfy` (`Extraction`): the extraction loop both extract functions end with, and what it does to the filesystem.
- `version1.cpp`'s and `version2.cpp`'s headers and top-level runs live in `version1.dfy` (`Version1`) and `version2.dfy` (`Version2`). `Version2` also holds the `Index` struct as a class with `Read`, plus the index loop.

Every loop of the source is a method whose loop is proved against a
front-recursive function of the inputs (`TableAt`, `ChildrenAt`,
`RootsAt`, `ExtractFrom`). The properties are proved about those functions.
They include:

- the round trips from an encoded entry, table, header, name, child, root or index back to its value;
- the exact success conditions of the reads and of each extraction turn;
- the order of effects;
- where a failing run stops and what it leaves behind;
- end to end, that any data laid out as a well-formed archive of either version extracts exactly the expected files, and that the version 2 index changes only where the contents region starts.

The model follows the code in two behaviours that a reader of the file
layout alone might not expect:

- An entry or child that fails to decode is dropped and the loop goes on; it does not abort the run. A truncation inside the table loop is not fatal by itself. Later reads simply fail and leave the cursor at the end of data. So a version 1 archive cut inside its table fails the position check (`Version1.Run1Cut`). A version 2 archive cut in its header, table or `indicesCount` fails with a truncation at the cut (`Version2.Run2Cut`). One cut inside its index still runs the extraction loop, with the contents region taken to start at the cut (`Version2.Run2IndexCut`).
- A zero-size entry gets its parent directories and no file.

## Model

| member | source | states |
|---|---|---|
| Bytes.LittleEndian | src/utils.h:9-21 | the value of a field read into an integer, least significant byte first, is below 256 to the power of its width |
| Bytes.DecodeEncode | src/utils.h:9-21 | reading back an encoded field gives the value whenever it fits the width |
| Bytes.EncodeDecode | src/utils.h:9-21 | encoding a decoded field gives back the same bytes |
| Reader.Exhausted | src/utils.h:14 | a short `fread` leaves the cursor at the end of data, never before where it was |
| Reader.ReadFixed | src/utils.h:9-21 | `readType` succeeds exactly when width bytes remain; it then yields their little-endian value and advances by exactly width; otherwise it fails with Truncated at the end of data |
| Reader.ReadSpan | src/utils.h:23-35 | `readBytes(n)` succeeds exactly when n bytes remain, yielding exactly those bytes and advancing by n; n = 0 always succeeds without moving; a short read fails with Truncated at the end of data |
| Reader.Seek | src/version2.cpp:262 | `fseek` with SEEK_SET moves to a non-negative target and leaves the cursor where it was for a negative one |
| Reader.Stream.ReadType | src/utils.h:9-21 | the stream method reads as ReadFixed says and leaves the cursor where ReadFixed does |
| Reader.Stream.ReadBytes | src/utils.h:23-35 | the stream method reads as ReadSpan says and leaves the cursor where ReadSpan does |
| Reader.Stream.SeekTo | src/version2.cpp:262 | the stream's cursor becomes what Seek says |
| Reader.ReadFixedRoundTrip | src/utils.h:9-21 | a value encoded at the cursor is read back by `readType`, which moves past it |
| Reader.ReadSpanRoundTrip | src/utils.h:23-35 | a block at the cursor is read back whole by `readBytes` of its length |
| Reader.FailureIsSticky | src/utils.h:14-28 | after a failed read every later read of a non-zero width fails too and leaves the cursor where it is; a zero-length `readBytes` still succeeds |
| Entries.EntryAt | src/version1.cpp:39-68 | on success `Entry::read` consumes exactly 4 + length + 2 × width bytes, and the name is below BUFFER_SIZE and the fields fit the width |
| Entries.EntryAtParsed | src/version1.cpp:45-67 | a decoded entry is a u32 length below BUFFER_SIZE, then exactly that many name bytes, then size, then offset, back to back |
| Entries.EntryAtFailed | src/version1.cpp:45-54 | a length of BUFFER_SIZE or more fails after consuming only the 4-byte length field; every other failure is a truncation that leaves the cursor at the end of data |
| Entries.ReadEntry | src/version2.cpp:40-69 | the method filling the record field by field succeeds exactly when EntryAt does, with the same record and the same cursor |
| Entries.TableAt | src/version1.cpp:94-110 | the table loop keeps at most entriesCount entries, each of them encodable, and never moves the cursor back |
| Entries.ReadTable | src/version1.cpp:94-110 | the `push_back` loop returns exactly the entries TableAt keeps, in order, and leaves the cursor where TableAt ends |
| Entries.ReadListed | src/version1.cpp:101-109 | one turn of the loop: a decoded entry heads what the rest of the loop keeps, and a failed one is dropped |
| Entries.TableStep | src/version2.cpp:204-215 | unfolding fact, one turn of TableAt: the table loop keeps a decoded entry in front of the rest and drops a failed one, going on from wherever its read left the cursor |
| Entries.TableStuck | src/version1.cpp:99-110 | once the cursor is at the end of data, the rest of the table loop keeps nothing and does not move |
| Entries.EncodeEntry | src/version1.cpp:45-65 | an encoded entry takes 4 + length + 2 × width bytes |
| Entries.EntryRoundTrip | src/version1.cpp:39-68 | an encodable entry, encoded at the cursor, is decoded as itself, consuming exactly its encoding |
| Entries.TableRoundTrip | src/version1.cpp:94-110 | a table of encodable entries decodes to exactly those entries and ends right after its encoding |
| Entries.EntryCut | src/version1.cpp:45-68 | an encoded entry cut short by the end of data, wherever the cut falls, fails with Truncated and leaves the cursor at the end of data |
| Entries.TableCut | src/version1.cpp:94-110 | a table of encodable entries cut short by the end of data makes the table loop end at the end of data |
| Extraction.SeekTarget | src/version2.cpp:262 | the fseek argument: version 1 wraps modulo 2^32 and version 2 wraps modulo 2^64 then casts to long, which is negative from 2^63 on; below those bounds it is the plain sum |
| Extraction.Reach | src/version1.cpp:142 | below Reach, every seek target is exactly base + offset |
| Extraction.ExtractOne | src/version1.cpp:126-177 | an unnamed entry is skipped without effect or cursor move; every failure is CannotMakeParents, Truncated, CannotCreate or ShortWrite |
| Extraction.ExtractOneEffects | src/version1.cpp:126-166 | one turn makes the parent directories of the name first, then at most one file of that name; the file holds a prefix of the entry's bytes where its seek lands, complete exactly when the turn succeeds; a zero-size entry does not move the cursor |
| Extraction.ExtractOneSucceeds | src/version1.cpp:126-177 | where its seek lands, a turn succeeds exactly when the entry is unnamed, or directories are made and the entry is empty, or its bytes are all there and the file is created and fully written |
| Extraction.ExtractFrom | src/version1.cpp:121-178 | the loop's faults are EntryMissing for `entries[i]` past the kept entries, or one turn's fault |
| Extraction.ExtractEntry | src/version2.cpp:243-297 | the method runs one turn as ExtractOne says: same result, same effects, same cursor |
| Extraction.ExtractEntries | src/version2.cpp:241-298 | the method's loop returns false exactly where ExtractFrom fails, with the same effects and cursor |
| Extraction.WorksAsIntended | src/version1.cpp:126-170 | an entry that works succeeds with its intended effects: directories, then a file with exactly its bytes |
| Extraction.ExtractOrdered | src/version1.cpp:129-160 | in every run no effect names an empty path and every file is written right after its parent directories are made |
| Extraction.ExtractOneFromAnywhere | src/version1.cpp:141-145 | where its seek lands, what a turn does does not depend on where the previous turn left the cursor |
| Extraction.ExtractAllWork | src/version1.cpp:121-180 | when every entry up to the count works, the loop succeeds and does exactly the planned effects |
| Extraction.ExtractSucceeds | src/version1.cpp:121-180 | the loop succeeds if and only if every one of the count entries exists and works |
| Extraction.ExtractStopsAt | src/version1.cpp:145-177 | the first entry that does not work ends the run with its own fault |
| Extraction.ExtractStopsAtEffects | src/version1.cpp:145-177 | a stopped run leaves the planned effects of the entries before the failing one, then what that entry did, and nothing for later entries |
| Extraction.ExtractFromWorks | src/version1.cpp:121-178 | a turn whose entry works does its intended effects and hands the cursor to the next turn |
| Extraction.ExtractFromFails | src/version1.cpp:145-177 | a turn whose entry does not work fails, and the run's outcome is that turn's |
| Extraction.ExtractMissing | src/version1.cpp:121-124 | when the count runs past the kept entries and those all work, the run fails with EntryMissing after their planned effects |
| Extraction.PlannedIsExpected | src/version1.cpp:141-145 | with the contents region at base and every seek at base + offset, the planned effects are those read from the region alone |
| Extraction.ExtractExpected | src/version2.cpp:238-265 | a run over entries that all work, with every seek landing in the region at base, does exactly the expected effects |
| Extraction.AllWork | src/version1.cpp:126-166 | every entry inside a region within reach works on a filesystem that accepts everything |
| Extraction.PlacedExtractsExpected | src/version2.cpp:241-300 | a region within reach that holds every entry, on an accepting filesystem, extracts exactly the expected files |
| Version1.HeaderAt | src/version1.cpp:79-90 | the header is refused with BadHeader exactly when contentOffset < 8 or entriesCount < 1; it fails with Truncated when fewer than 8 bytes remain; otherwise it yields both u32 fields and the cursor at +8 |
| Version1.Run1 | src/version1.cpp:76-181 | a run has effects only after the header is accepted and the table ends at contentOffset; it fails with PositionMismatch exactly when the accepted table ends elsewhere; BadHeader only comes from the header check; a refused or truncated header ends the run with its own fault and cursor and no effects |
| Version1.ExtractVersion1 | src/version1.cpp:76-181 | the method returns false exactly where Run1 fails, with the same effects and cursor |
| Version1.HeaderRoundTrip | src/version1.cpp:79-90 | an encoded valid header is read back as itself |
| Version1.Archive1LaidOut | src/version1.cpp:79-118 | a version 1 archive built from entries and a contents region has a valid header, its table at 8 and the region at contentOffset |
| Version1.Run1Extracts | src/version1.cpp:112-121 | unfolding fact, one level of Run1: from any start, once the header is read and the table ends at contentOffset, a run is the extraction loop from contentOffset |
| Version1.Run1OfLaidOut | src/version1.cpp:94-124 | on a laid-out archive the run is the extraction loop over exactly the encoded entries |
| Version1.Version1Runs | src/version1.cpp:76-181 | a laid-out version 1 archive extracts exactly the expected files on an accepting filesystem |
| Version1.Run1Cut | src/version1.cpp:79-118 | a version 1 archive cut before the end of its table fails, before any effect and with the cursor at the cut: with Truncated inside the 8-byte header, and with PositionMismatch inside the table |
| Version1.Version1Example | src/version1.cpp:76-181 | a one-entry archive for `a/b.txt` makes its directory and writes its 5 bytes |
| Version2.Header2At | src/version2.cpp:179-195 | an accepted header occupies exactly 16 bytes and yields an entry count from 1 to 2^32 - 1 |
| Version2.NameAt | src/version2.cpp:95-113 | the name part of `Index::read` never moves the cursor back and fails only with Truncated or NameTooLong |
| Version2.ChildAt | src/version2.cpp:142-153 | a non-root read never touches the children and, on success, is not a root |
| Version2.ChildrenAt | src/version2.cpp:129-140 | the children loop keeps at most filesCount children, none a root, each with the object's own children |
| Version2.RootAt | src/version2.cpp:115-141 | a root read never moves the cursor back |
| Version2.RootsAt | src/version2.cpp:220-236 | the index loop keeps at most indicesCount roots and never moves the cursor back |
| Version2.Index.constructor | src/version2.cpp:80-82 | a new Index has no name, is neither directory nor root, and has no children |
| Version2.Index.Read | src/version2.cpp:89-156 | `read` leaves the object in the state RootAt or ChildAt gives, including the fields it assigned before a later read failed, and the cursor where they end |
| Version2.Index.ReadChildren | src/version2.cpp:127-140 | the loop of a root's read, with one reused fileIndex, appends exactly the children ChildrenAt keeps and changes no other field |
| Version2.Index.ReadNext | src/version2.cpp:134-139 | one turn of that loop: a child read successfully heads what the rest keeps, starting from the state it left the object in |
| Version2.ReadRoot | src/version2.cpp:228-235 | one turn of the index loop with a fresh dirIndex: a successful read heads what the rest keeps |
| Version2.ReadRoots | src/version2.cpp:220-236 | the index loop pushes exactly the roots RootsAt keeps, in order, and leaves the cursor where RootsAt ends |
| Version2.Run2 | src/version2.cpp:177-301 | a run has effects only after the header is accepted, and fails with BadHeader exactly when the header checks fail; a refused or truncated header ends the run with its own fault and cursor and no effects |
| Version2.ExtractVersion2 | src/version2.cpp:177-301 | the method returns false exactly where Run2 fails, with the same effects and cursor |
| Version2.Header2Checks | src/version2.cpp:179-195 | with 16 bytes left the header is accepted if and only if unknown1 = 1, unknown2 = 1 and entriesCount ≥ 1, and takes 16 bytes either way; with fewer it is a truncation |
| Version2.Header2RoundTrip | src/version2.cpp:179-195 | an encoded header for a count from 1 to 2^32 - 1 is read back with that count |
| Version2.NameCases | src/version2.cpp:94-113 | a name length of BUFFER_SIZE or more fails after the length field; a length of 0 reads nothing and keeps the current name; any other length reads exactly that many bytes when they are there |
| Version2.ChildFlag | src/version2.cpp:142-153 | a child read after its name succeeds exactly when one more byte is there, then consumes exactly that byte, is a directory exactly when it is 1, and is not a root |
| Version2.ChildFails | src/version2.cpp:105-146 | a failed name read leaves the object as it was; a failed flag read still leaves it renamed, with the cursor at the end of data |
| Version2.RootShape | src/version2.cpp:115-141 | once named, a root read from a fresh object is a directory and a root; it succeeds exactly when a u32 filesCount follows, and then keeps at most that many children, none a root or with children |
| Version2.Decoded | src/version2.cpp:129-139 | the children loop yields one node per encoded child |
| Version2.NameRoundTrip | src/version2.cpp:94-113 | an encoded name is read back; an empty one keeps the name the object already had |
| Version2.ChildRoundTrip | src/version2.cpp:142-153 | an encoded child is read back into the object with its flag, keeping the old name when its own is empty |
| Version2.ChildrenRoundTrip | src/version2.cpp:129-140 | encoded children are read back as Decoded says, so an unnamed child inherits the previous child's name, and the loop ends right after them |
| Version2.ChildrenStep | src/version2.cpp:132-140 | unfolding fact, one turn of ChildrenAt: the children loop keeps a successfully read child in front of the rest and continues from the object's new state |
| Version2.RootRoundTrip | src/version2.cpp:115-141 | an encoded root is read back by a fresh object as a directory and root with its name and decoded children, ending right after its encoding |
| Version2.RootsStep | src/version2.cpp:226-236 | unfolding fact, one turn of RootsAt: the index loop keeps a successfully read root in front of the rest |
| Version2.RootsRoundTrip | src/version2.cpp:220-236 | encoded roots are read back as DecodedRoots says, and the index ends right after their encoding |
| Version2.NameCut | src/version2.cpp:94-113 | an encoded name cut short by the end of data fails with Truncated and leaves the cursor at the end of data |
| Version2.ChildCut | src/version2.cpp:142-153 | an encoded child cut short by the end of data is a failed read that leaves the cursor at the end of data |
| Version2.ChildrenStuck | src/version2.cpp:129-140 | once the cursor is at the end of data, the children loop keeps nothing and does not move |
| Version2.ChildrenCut | src/version2.cpp:129-140 | encoded children cut short by the end of data make the children loop end at the end of data |
| Version2.RootCut | src/version2.cpp:115-141 | an encoded root cut short by the end of data, in its name, its count or its children, leaves the cursor at the end of data |
| Version2.RootsStuck | src/version2.cpp:220-236 | once the cursor is at the end of data, the index loop keeps nothing and does not move |
| Version2.RootsCut | src/version2.cpp:220-236 | encoded roots cut short by the end of data make the index loop end at the end of data |
| Version2.Header2Cut | src/version2.cpp:179-190 | an encoded header cut short by the end of data fails with Truncated at the end of data |
| Version2.Archive2LaidOut | src/version2.cpp:179-238 | a version 2 archive built from entries, roots and a contents region has an accepted header, its table at 16, the index count and roots after it, and the region right after the index |
| Version2.Run2Extracts | src/version2.cpp:217-241 | from any start, once the header is read (so the table begins at start + 16), the table and indicesCount are read, a run is the extraction loop over the kept entries, based wherever the index ends |
| Version2.Run2OfLaidOut | src/version2.cpp:204-238 | on a laid-out archive the index decodes to DecodedRoots and ends where the region begins, and the run is the extraction loop over exactly the encoded entries |
| Version2.Version2Runs | src/version2.cpp:177-301 | a laid-out version 2 archive extracts exactly the expected files on an accepting filesystem, whatever its index holds |
| Version2.Run2Cut | src/version2.cpp:179-218 | a version 2 archive cut in its header, its table or `indicesCount` fails with Truncated at the cut, before any effect |
| Version2.Run2IndexCut | src/version2.cpp:217-241 | a version 2 archive cut inside its index still yields all its entries, and the run is the extraction loop over them with the contents region taken to start at the cut |

## Left out

- `src/main.cpp` is not part of this model. That covers argument handling, opening the file, the `AGAR` dispatch and the exit codes.
- `print()`, `printf` and `fprintf` are left out. They are console output only.
- Names are kept whole in the effects `MakeParents(name)` and `WriteFile(name, …)`, including any bytes after a zero byte. The source tests `filename.empty()` on the whole name, but `create_directories` and `fopen` receive `c_str()`, which ends at the first zero byte (src/version1.cpp:129-148, src/version2.cpp:249-268). So a name with an interior zero byte reaches the filesystem as a shorter path than the one in the effects.
- Path parsing (`boost::filesystem::path`, `parent_path`) is left out. Making a name's parent directories is the abstract effect `MakeParents(name)`.
- A failing `create_directories` throws in the source. The model ends the run with `CannotMakeParents` instead.
- `fopen`, `fwrite` and `fclose` are the oracle `io`. The result of `fclose` is ignored, as in the source.
- Allocations can throw `bad_alloc` for large counts or sizes: `reserve` (src/version1.cpp:97, src/version2.cpp:127, 202 and 223) and `new uint8_t[size]` (src/version1.cpp:139, src/version2.cpp:259). The model assumes they succeed.
- `long` and `size_t` are taken to be 64 bits wide (LP64). Other widths are not modelled.
- `readType` copies the bytes into the integer in host byte order (src/utils.h:14). The model assumes a little-endian host.
- Version2.Version2Runs: stated for an archive at offset 0, while `main.cpp` reads the 4-byte `AGAR` magic first, so in a file the archive starts at offset 4. `Run2` and `ExtractVersion2` take the starting position as a parameter; the lemmas about built archives are not restated at offset 4.
- Version2.Run2OfLaidOut: also stated for an archive at offset 0, for the same reason; `Run2Extracts`, which it rests on, holds at any start.
- Version2.Archive2LaidOut: also stated for an archive at offset 0, for the same reason.
- Version2.Run2Cut and Version2.Run2IndexCut: also stated for an archive at offset 0, for the same reason.
- `entries[i]` past the entries actually kept is undefined behaviour in the source. The model stops there with the fault `EntryMissing`.
- `Entry1` and `Entry2` are modelled on values, because each loop turn uses a fresh record. Filling the record in place is shown by `ReadEntry`, which assigns the fields one by one.
- The decoded index is never used in the source. The model decodes it (`RootsAt`, `ReadRoots`) only to find where it ends.
- The "only read filename if length > 0" branch of `Index::read` is modelled. The `print` walk over the index is not.
