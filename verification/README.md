# FramePrism: verified models

FramePrism packs camera frames for archiving, seals folders with an ASC MHL history, and checks
what it wrote. This project models five of its cores in Dafny and proves what they promise for
every input, every run and every crash point:

1. **The ASC MHL history** (`tool/src/ascmhl.rs`): the streaming SHA-512 state, the C4ID codec,
   the directory seal, the XML printer and parser, the strict manifest reader, the append-only
   chain with its generation numbers, and the verification of a scope.
2. **The two-scan entropy decoder** (`tool/src/dct2s.rs`): the expanded Huffman table, the
   32-bit bit reader, the scan decoder, the tile marker walk and the frame assembly.
3. **The lossless decoder** (`tools/ljpeg_decode.py`): its bit reader, the incremental Huffman
   decoder, the predictors and the interleaved sample loop.
4. **CRC-32C and its sidecar** (`tool/src/checksums.rs`).
5. **The part split and the resumable bake** (`tool/src/bake.rs`), and the audit's reader of its
   manifest (`tool/src/audit/sidecars.rs`).

`dafny verify dfyconfig.toml` checks everything. Code that updates state is modelled as methods
and classes (`Sha512State`, `HistoryDir`, `BitReader`, `PlainReader`, `OutputDir`) that are proved
equal to specification functions; the properties are lemmas about those functions.

## How the models are set up

- The hash function, the SHA-512 block function, the inverse DCT, the archive builder and SHA-256
  are parameters: every statement holds for every such function. Nothing assumes that a hash has
  no collisions; the seal theorems say that either the trees agree or two strings that were
  hashed along the way collide.
- A file system is a tree of names to octets (seal, scope) or a map of names to contents
  (history, bake). A crash stops a run between two steps, or leaves any octets in a temporary.
- Strings are sequences of Unicode scalar values; where octets matter they are UTF-8 encoded
  explicitly (`Utf8`). 32-bit wrap-around is written out (`Wrap32`, `% 0x1_0000_0000`).
- Positions, names and wording inside error messages are not modelled; which error arises is.

## Where the code does not do what its comments or the obvious claim say

- An empty file and an empty directory of one name (more generally, a directory and a file that
  holds exactly its joined digests) have one structure hash. `StructureRootBinds` gives the exact
  condition, `EmptyFileIsEmptyDirectory` and `EmptyFilePasses` the concrete case, which passes
  verification unseen.
- Generation numbers are read back from names by their first four digits. Up to 9999 every run
  gets a number and a name of its own. Past that, and only there, a run that crashed between its
  manifest and the chain leaves a manifest whose number is not seen: the next run takes the same
  number and, for the same folder and stamp, overwrites that manifest (`OverwritesExactly` says
  exactly when, `TenThousandthIsOverwritten` reaches the case). Chained manifests are never lost.
- A short read at the end of a scan is commented as leaving no state changed. Bytes are in fact
  taken into the buffer; what stays unchanged is the remaining bit string. And a table read with
  fewer bits left than the longest code returns symbol 0 whatever the bits, and consumes none
  (`SymbolRead`). A scan filled to the byte as ITU-T T.81 prescribes can end in fewer bits than
  that, so its last codes may be lost or misread: `ScanDecodesCoding` says which blocks come back
  all the same, `ScanComesBackExactly` when all do, and `LostDifference` is a scan of one byte
  that loses its only difference.
- The comment that predictors 4 to 7 differ from ITU-T T.81 is wrong: they are those of its Table
  H.1. But the standard takes differences modulo 2^16 and the decoder adds them up without
  reducing, so a sample whose difference leaves [-32768, 32767] does not come back: with 15-bit
  samples that happens for predictors 4, 5 and 6 and no others, with 16-bit samples for all
  (`PrecisionExact`, `FifteenBitImage`).
- The greedy split of no files is one empty part, where no part would do
  (`OptimalExactly`).
- A sidecar row of a file called exactly `file` is taken for a column line (`SidecarReadsBack`
  loses those rows and no others). The walk over a clip collects names with a .dng extension
  only, so no frame is ever lost this way (`FramesReadBack`).
- From the year 10000 on the stamp in a manifest's file name is cut off inside the date
  (`FileStampReads`).
- The audit does not read back the manifest of a bake whose clip has white space around its name,
  or, where archives are listed, a comma in it (`ManifestAudited` gives the exact condition).
- The bake's completion marker knows the input only by its number of files: a resumed run keeps
  an archive of other content (`StaleArchiveIsKept` says exactly when that is the wrong one).

## Model

| member | source | states |
|---|---|---|
| Sha512.Sha512State.Update | tool/src/ascmhl.rs:425-448 | feeding a chunk of any size keeps the chaining value over all whole blocks of the message so far and the rest in the buffer |
| Sha512.Sha512State.Finalize | tool/src/ascmhl.rs:454-481 | the digest is the block function folded over the padded message of section 5.1.2 of FIPS 180-4; nothing stale from the buffer reaches it |
| Sha512.Sha512State.TopUp | tool/src/ascmhl.rs:425-448 | a partial block is completed from the chunk, compressed exactly when full, and loses no octet |
| Sha512.HashReads | tool/src/ascmhl.rs:540-553 | hashing a file read by read equals hashing its bytes at once, for every cut into reads |
| Sha512.ChainAppend | tool/src/ascmhl.rs:399-448 | the fold over blocks may be cut at any block boundary |
| Sha512.BigEndianValue | tool/src/ascmhl.rs:473-478 | octets written most significant first have, read as a number, the value that was written, modulo their width |
| Sha512.PaddedMessage | tool/src/ascmhl.rs:454-475 | the padded message is the message, one octet 0x80, zeros, and in the last 16 octets the number of its bits modulo 2^128: a whole number of blocks, and the least possible |
| Sha512.DigestWord | tool/src/ascmhl.rs:476-480 | octets 8i to 8i+8 of a digest have the value of word i of the chain |
| Sha512.InitialWords | tool/src/ascmhl.rs:227-239 | the initial words are the first 64 fractional bits of the square roots of the first eight primes |
| C4Id.DivMod58 | tool/src/ascmhl.rs:504-522 | one long-division pass over 64 octets leaves the quotient in place and returns the remainder |
| C4Id.C4OfDigest | tool/src/ascmhl.rs:504-522 | repeated division and padding give the 88-digit base-58 identifier of the digest |
| C4Id.DigitsSuffice | tool/src/ascmhl.rs:493-522 | 58^87 < 2^512 <= 58^88: 88 digits are enough and 87 are not |
| C4Id.MulAdd58 | tool/src/ascmhl.rs:564-577 | one multiply-and-add pass keeps its carry below 58 and value plus carry exact |
| C4Id.C4Bytes | tool/src/ascmhl.rs:564-577 | the octets are the base-58 value of the UTF-8 octets of the body, modulo 2^512, for every string |
| C4Id.EncodeWellFormed | tool/src/ascmhl.rs:504-522 | every digest encodes to `c4` and 88 alphabet characters |
| C4Id.DecodeEncode | tool/src/ascmhl.rs:504-577 | decoding the identifier gives the digest back |
| C4Id.EncodeDecode | tool/src/ascmhl.rs:564-577 | a well-formed identifier is the identifier of its octets exactly when its value is below 2^512 |
| C4Id.OrderIsomorphism | tool/src/ascmhl.rs:495-522 | string order of identifiers is dictionary order and numeric order of digests |
| C4Id.ReadsAnything | tool/src/ascmhl.rs:564-577 | reading never fails: the prefix may be missing, and a character outside the alphabet counts as the first of it |
| Utf8.Injective | tool/src/ascmhl.rs:604-608 | names are determined by the octets that are hashed for them |
| Utf8.TextOfOctets | tool/src/bake.rs:205-210 | reading written text back gives that text |
| Seal.HashOfHashesPermutes | tool/src/ascmhl.rs:588-596 | the hash of hashes does not depend on the order of its inputs |
| Seal.HashOfHashesSorts | tool/src/ascmhl.rs:588-596 | it equals hashing the digests joined in ascending numeric order |
| Seal.JoinDetermines | tool/src/ascmhl.rs:588-596 | what is hashed determines the digests up to order, and nothing more |
| Seal.DirHashesOfWalk | tool/src/ascmhl.rs:1249-1328 | the recursive identifiers over the walked files and directories are those of the managed tree |
| SealSoundness.StructureBinds | tool/src/ascmhl.rs:1313-1328 | without a collision among the hashed strings, equal structure hashes mean trees sealed alike |
| SealSoundness.StructureRootBinds | tool/src/ascmhl.rs:1313-1328 | trees sealed alike have one structure hash; equal structure hashes mean sealed alike or a collision; different trees of agreeing kinds differ in it or collide |
| SealSoundness.EmptyFileIsEmptyDirectory | tool/src/ascmhl.rs:1313-1328 | for every hash function an empty file and an empty directory of one name give the same roots |
| SealSoundness.SingleEditIsSealed | tool/src/ascmhl.rs:588-608 | adding, removing or renaming one file or directory, or rewriting one file, at any depth and whatever becomes of the recorded times, changes the structure root or exhibits a collision; renaming keeps the content root, the others change it or exhibit a collision |
| SealSoundness.EditsIgnoreTimes | tool/src/ascmhl.rs:600-608 | whether two trees are one edit apart does not depend on any recorded time in either |
| SealSoundness.ContentIgnoresRename | tool/src/ascmhl.rs:1313-1328 | renaming at any depth leaves the content image as it was, though times above it move |
| SealSoundness.RootIdentifierBinds | tool/src/ascmhl.rs:1313-1328 | the structure identifier recorded for a scope binds its managed tree |
| XmlDocs.EscapeIsOnePass | tool/src/ascmhl.rs:666-671 | the chained replacements escape each character once |
| XmlDocs.DecodeEscape | tool/src/ascmhl.rs:666-768 | entity decoding undoes escaping for every string |
| XmlDocs.LayRead | tool/src/ascmhl.rs:773-921 | reading a laid-out element gives its tree and leaves exactly what follows it |
| XmlDocs.LayFileRead | tool/src/ascmhl.rs:710-729 | reading a whole laid-out document gives its tree |
| ReaderLimits.LayFileExactly | tool/src/ascmhl.rs:685-729 | a laid-out document is read if it nests at most ten thousand deep, and refused as too deep otherwise |
| ReaderLimits.EntitiesExactly | tool/src/ascmhl.rs:736-768 | five names stand for their characters, every other name is refused as unknown, and one without an end as unterminated |
| ReaderLimits.ReadsExactly | tool/src/ascmhl.rs:1149-1151 | text reads as a number exactly if it is digits of the base, with or without a plus sign, of a value below the limit |
| XmlParser.DecodeEntitiesLoop | tool/src/ascmhl.rs:739-768 | the cursor loop decodes entities as specified, errors included |
| XmlParser.ParseAttrAt | tool/src/ascmhl.rs:773-921 | the cursor form of one attribute reads what the text remaining there holds |
| XmlParser.ParseElementAt | tool/src/ascmhl.rs:773-921 | the cursor form of the element parser agrees with the specification, end position and errors included |
| XmlParser.ParseContentAt | tool/src/ascmhl.rs:773-921 | the content loop agrees with the specification |
| XmlParser.ParseLiteLoop | tool/src/ascmhl.rs:710-729 | the document parser as it runs agrees with the specification |
| Numerals.PaddedValue | tool/src/ascmhl.rs:985-990 | a zero-padded number reads back as itself in any base |
| Numerals.ParsePadded | tool/src/checksums.rs:225-235 | formatting and parsing a number undo each other |
| Numerals.IsoStamp | tool/src/ascmhl.rs:647-650 | a time stamp is never empty and holds only stamp characters |
| Calendar.CivilIsCalendar | tool/src/jobreport.rs:916-931 | the civil date of a day is the date reached from 1970-01-01 by that many successive days of the Gregorian calendar |
| Calendar.StampReads | tool/src/jobreport.rs:902-914 | a stamp spells that date and, as hour, minute and second, the seconds of the day |
| Calendar.FileStampReads | tool/src/ascmhl.rs:652-659 | the stamp in a file name is the same date and time without colons exactly up to the year 9999 |
| ManifestWriter.RenderManifest | tool/src/ascmhl.rs:996-1085 | the text written line by line is the layout of the manifest document |
| ManifestRoundTrip.CheckC4Accepts | tool/src/ascmhl.rs:1498-1518 | the identifier check accepts exactly the well-formed identifiers |
| ManifestRoundTrip.RowsFaithful | tool/src/ascmhl.rs:1595-1879 | the rows read back as recorded, in order, exactly when every entry is readable |
| ManifestRoundTrip.ManifestReadsBack | tool/src/ascmhl.rs:1595-1879 | strictly reading the written manifest gives every recorded value exactly when host name and paths are trimmed, paths in scope and distinct, identifiers well formed and something is recorded |
| StrictReader.AcceptsExactly | tool/src/ascmhl.rs:1595-1879 | the strict reader accepts a document exactly if it has the root, version and namespace, one creator and one process of only the allowed parts, and rows of the two shapes with distinct paths in scope, dates, actions and well-formed identifiers; it returns what those say |
| StrictReader.RowsExactly | tool/src/ascmhl.rs:1770-1879 | the rows are read exactly if each is a file or directory row of its shape and no path occurs twice |
| StrictReader.PathRefused | tool/src/ascmhl.rs:1522-1540 | a path is refused as empty, absolute, upward or duplicate exactly for that reason |
| StrictReader.IdentifierRefused | tool/src/ascmhl.rs:1498-1518 | an identifier is refused for its prefix, its length in octets or a foreign character exactly for that reason |
| Chain.AppendExtends | tool/src/ascmhl.rs:1112-1131 | appending a record to a written chain gives the chain of one more record and keeps all but the closing tag in place |
| Chain.ChainReadsBack | tool/src/ascmhl.rs:1136-1164 | reading a written chain gives its records |
| ChainReader.ChainExactly | tool/src/ascmhl.rs:1136-1164 | a chain is read exactly if it is a directory of records, each with a 32-bit number and a path and an identifier, of which the last counts |
| ChainReader.RecordRefused | tool/src/ascmhl.rs:1142-1162 | another element, a missing or unreadable number, and a missing path or identifier are told apart |
| ChainReader.GenerationExactly | tool/src/ascmhl.rs:1190-1203 | a file name carries a generation number exactly if it is four decimal digits, anything, and the extension of manifests |
| History.HistoryDir.ChainFloor | tool/src/ascmhl.rs:1169-1186 | the chain's floor is the largest sequence number of a chain that can be read |
| History.HistoryDir.NextGeneration | tool/src/ascmhl.rs:1169-1204 | the next generation is one more than every chained number and every number in a manifest's name |
| History.HistoryDir.WriteHistory | tool/src/ascmhl.rs:1387-1442 | one run, complete or cut off before its manifest or before the chain, has the specified effect on the directory |
| HistoryRuns.RunKeepsInv | tool/src/ascmhl.rs:1387-1442 | at every number but the wrapped 0, a run, wherever it is cut off, takes a number above all chained ones, keeps the history invariant, every chained manifest and every file but its own and the chain; a file of its name can have been there only past 9999 |
| HistoryRuns.NextNumber | tool/src/ascmhl.rs:1169-1204 | a directory has exactly one next number: one more than the last run's, or the same again exactly if that run crashed before its manifest, or before the chain past 9999 |
| HistoryRuns.EveryReachableHistory | tool/src/ascmhl.rs:1387-1442 | after any fewer than 2^32 runs and crashes the chain reads as the completed runs, numbers strictly ascending, every record's identifier that of its manifest's bytes, and the next number is known |
| HistoryRuns.ExecutionExists | tool/src/ascmhl.rs:1387-1442 | any fewer than 2^32 runs, cut off anywhere, have an execution |
| HistoryRuns.OverwritesExactly | tool/src/ascmhl.rs:1169-1204 | a run finds a manifest of its own name exactly if an earlier run of the same folder and stamp, numbered past 9999, left one unchained and no run since has completed; those are the runs that took the same number |
| HistoryRuns.HistoryOnlyGrows | tool/src/ascmhl.rs:1112-1131 | between any two moments the chained records stay a prefix, their manifests do not change, the chain but its closing tag is a prefix of the later one, and another manifest changes only where a later run takes its name |
| HistoryRuns.SelectsLastChained | tool/src/ascmhl.rs:1888-1950 | the manifest selected for verification is that of the last chained generation |
| ChainReader.SelectsExactly | tool/src/ascmhl.rs:1888-1950 | with a chain the manifest of its last record is selected exactly if every recorded manifest is there unaltered, and else the first one that is missing or altered is named; without a chain, the only manifest there is |
| HistoryRuns.TenThousandthIsOverwritten | tool/src/ascmhl.rs:1190-1203 | if the 10000th manifest is left unchained by a crash, the next run is numbered 10000 as well and, for the same folder and stamp, writes over that manifest |
| HistoryRuns.LastCompletedSelected | tool/src/ascmhl.rs:1888-1950 | after any runs the manifest selected is the one the last completed run wrote, with the text it wrote |
| SealedHistory.HistoryVerifies | tool/src/ascmhl.rs:1387-1442 | after any runs and crashes, a scope that is as the last completed run sealed it, history folder and times aside, verifies in full against the manifest that is selected |
| Scope.PushEntriesOfWalk | tool/src/ascmhl.rs:1334-1373 | the entry list over the walked directory is the post-order list of the managed tree |
| IgnoreRules.SuffixPattern | tool/src/ascmhl.rs:620-628 | a pattern with a star first matches exactly anything followed by the rest of it |
| IgnoreRules.PrefixPattern | tool/src/ascmhl.rs:620-628 | a pattern with a star last, and none first, matches exactly the rest of it followed by anything |
| IgnoreRules.ExactPattern | tool/src/ascmhl.rs:620-628 | a pattern without either matches itself only |
| IgnoreRules.IgnoredExactly | tool/src/ascmhl.rs:192-217 | a name is ignored exactly if it is one of six names, begins with the shadow prefix, or ends in one of twelve suffixes |
| IgnoreRules.FrameNotIgnored | tool/src/ascmhl.rs:192-217 | of names with a .dng extension exactly the shadow files are ignored |
| IgnoreRules.BakeManifestIgnored | tool/src/ascmhl.rs:192-217 | the manifest of a bake is not part of a seal |
| ManagedFiles.RecordedExactly | tool/src/ascmhl.rs:1249-1373 | a scope's manifest records exactly what a path without ignored names leads to, with its size and identifiers |
| ManagedFiles.FrameIsRecorded | tool/src/ascmhl.rs:1249-1373 | every frame below directories that are not ignored is recorded, unless it is a shadow file |
| ManagedFiles.SealableExists | tool/src/ascmhl.rs:1387-1416 | there are scopes whose manifest reads back: one frame and nothing else |
| ScopePaths.SplitJoin | tool/src/ascmhl.rs:1334-1373 | splitting a recorded path gives back the names it was joined from |
| ScopePaths.TreeEntriesReadable | tool/src/ascmhl.rs:1522-1540 | the entries of a scope pass every check of the reader exactly when no path begins or ends with white space |
| VerifyScope.SweepChunks | tool/src/ascmhl.rs:2002-2113 | the chunked workers with absolute indices give the rows and the first error of the sequential sweep |
| VerifyScope.SweepFiles | tool/src/ascmhl.rs:2002-2113 | rows and first error are the same for every number of jobs |
| VerifyScope.VerifyScope | tool/src/ascmhl.rs:2002-2113 | the verification, for every number of jobs, is the sequential sweep of the recorded files plus the two root verdicts |
| Verdicts.VerifySays | tool/src/ascmhl.rs:2002-2113 | every recorded file gets one row, in order, that says Missing, another size, another identifier or Ok exactly for what stands at its path; otherwise the first file that cannot be examined or read ends the sweep |
| Verdicts.VerdictsOnDisk | tool/src/ascmhl.rs:2002-2113 | against a scope on disk a row says Missing exactly if its path leads to no file, another size or identifier exactly if it leads to such a file; only a path through a file ends the sweep |
| Verdicts.EditShowsInItsRow | tool/src/ascmhl.rs:2002-2113 | removing one recorded file turns its row to Missing, giving it other octets turns it to the size or identifier verdict unless the two contents share a hash, and every other row stays Ok |
| Verdicts.RootsByOwnPatterns | tool/src/ascmhl.rs:2095-2112 | the root verdicts are those of the scope under the manifest's own ignore patterns |
| ScopeOnDisk.ScopeManifestReadsBack | tool/src/ascmhl.rs:1387-1416 | the manifest of a scope reads back exactly when something is managed, host name and version are usable and paths are trimmed |
| VerifyExactly.PassesExactly | tool/src/ascmhl.rs:2002-2113 | every row is Ok and both roots match exactly when the managed tree stays: same names and files, a directory without files possibly now a file of its hashed octets with the same content; or else hashed strings collide |
| VerifyExactly.UnmodifiedScopeVerifies | tool/src/ascmhl.rs:2002-2113 | the same tree passes whatever its times, and where every recorded directory holds a file nothing else passes without a collision |
| WriteThenVerify.WriteThenVerify | tool/src/ascmhl.rs:1387-1416 | writing or growing the history folder inside the scope, and any change of times, leaves the manifest readable and the scope verifying |
| WriteThenVerify.StructureMatchBinds | tool/src/ascmhl.rs:2002-2113 | a structure match means trees sealed alike, or a collision |
| WriteThenVerify.EmptyFilePasses | tool/src/ascmhl.rs:2002-2113 | an empty directory replaced by an empty file passes every check |
| Huffman.MakeDecoderRef | tool/src/dct2s.rs:113-145 | the table holds, for every window, the length and symbol the incremental decoder finds there, 0 where it finds none; it has exactly 2^maxlen windows even when over-subscribed; it fails exactly on an empty table or too few symbols |
| Huffman.FillRun | tool/src/dct2s.rs:129-143 | the slots of one code are written, and none past the end of the table |
| Huffman.DecodersAgree | tools/ljpeg_decode.py:112-128 | the table lookup and the bit-by-bit decoder agree on every bit stream, for every counts, complete or not |
| Huffman.CodeIsRead | tools/ljpeg_decode.py:112-128 | under Kraft's inequality every canonical code is read as its own symbol, whatever follows |
| Huffman.ReadFound | tools/ljpeg_decode.py:112-128 | what the decoder finds is the canonical code it has read |
| BitReader.BitReader.Refill | tool/src/dct2s.rs:182-217 | refilling takes bytes without changing the bits left to read, with at most 32 buffered |
| BitReader.BitReader.GetBitHuff | tool/src/dct2s.rs:182-236 | every read returns the next bits of the unstuffed stream and consumes the stored length or the raw count; on clean data reset mode is never entered; short reads as the code has them |
| BitReader.BitReader.ResetBits | tool/src/dct2s.rs:245-249 | a reset drops the buffered bits and reads on from the next byte |
| BitReader.BufferTop | tool/src/dct2s.rs:218-222 | the two 32-bit shifts read the first bits of the buffer, zeros standing for missing ones |
| Scan.DecodeScan | tool/src/dct2s.rs:262-329 | the block loop computes the specified decoding of the bit stream, with the predictor wrapping in 32 bits |
| Scan.ReadAcLoop | tool/src/dct2s.rs:301-325 | the AC loop agrees with the specification, run lengths past position 63 included |
| Scan.ZigzagSteps | tool/src/dct2s.rs:64-76 | the coefficient order is the zigzag of Figure A.6 of ITU-T T.81, step by step, up and right on even diagonals and down and left on odd ones |
| ScanInverse.SymbolRead | tool/src/dct2s.rs:182-236 | a code is read back and only it is consumed when the window is filled; at the end of the data it is otherwise not read at all |
| ScanInverse.ScanDecodesCoding | tool/src/dct2s.rs:262-329 | of blocks coded as in sections F.1.2.1 to F.1.2.3 of ITU-T T.81, filled to the byte by any bits and stuffed, as many come back as have their reads' windows filled: the DC chain 16384 plus the first quantiser times the differences, and every coefficient times its quantiser in its place; decoding never fails |
| ScanInverse.FarFromEnd | tool/src/dct2s.rs:187-192 | all blocks whose code is followed by enough bits for either table's longest code, less one, have their reads filled |
| ScanInverse.ScanComesBackExactly | tool/src/dct2s.rs:262-329 | for quantisers from 1 to 65535, all blocks come back exactly if, up to the first window that is not filled, all is read, what is not read there is an end of block or a difference of 0, and what follows is what the bits left hold |
| ScanInverse.NothingMoreIsRead | tool/src/dct2s.rs:187-195 | where the bits left fill neither window, what follows must be all zero |
| ScanInverse.LostDifference | tool/src/dct2s.rs:187-195 | one block in one byte with valid tables of 16-bit windows whose difference of 1 is lost |
| ScanInverse.ProductFits | tool/src/dct2s.rs:285-320 | neither a DC step nor a dequantised coefficient leaves 32 bits |
| ScanInverse.UnstuffStuff | tool/src/dct2s.rs:190-217 | dropping 00 after FF undoes byte stuffing, and stuffed data holds no marker |
| Tile.ParseTile | tool/src/dct2s.rs:451-518 | the marker loop computes the specified walk, tables and quantisers by id, scans in order |
| Tile.AcceptedScansClean | tool/src/dct2s.rs:499-511 | every scan of an accepted tile lies inside it, in order, before a marker, and holds FF only before 00 |
| Tile.AcceptedTablesBuild | tool/src/dct2s.rs:472-486 | a table of an accepted tile never has more counts than symbols |
| TileBuild.TileReadsBack | tool/src/dct2s.rs:451-518 | a tile put together from any writable segments is accepted with exactly their tables, quantisers and scans |
| Frame.RenderPlane | tool/src/dct2s.rs:549-558 | every pixel of a plane is the curve of the transform of the block that covers it |
| Frame.BlockOrderInjective | tool/src/dct2s.rs:549-558 | no two pixels of blocks are written to one place of a plane |
| Frame.DecodeScanPlane | tool/src/dct2s.rs:523-561 | table set, quantiser and data of the scan are used, and the first failure in the source's order is returned |
| Frame.RowPlace | tool/src/dct2s.rs:575-594 | a place of the frame belongs to exactly the one plane row that is copied over it |
| Frame.CopyPlane | tool/src/dct2s.rs:584-594 | the rows of one plane are copied to their places and rows past the height dropped |
| Frame.AssembleFrame | tool/src/dct2s.rs:566-598 | pixel (y, x) is that of tile (y/tl, x/tw), scan (y%tl)%2, row (y%tl)/2, or the first failure is returned |
| FrameInverse.CodedTileParses | tool/src/dct2s.rs:451-518 | a coded tile in the format's layout, its scans filled by any bits, is accepted with its tables, quantiser and scan data |
| FrameInverse.FrameDecodesCoding | tool/src/dct2s.rs:566-598 | four coded tiles always assemble, and the frame shows at every pixel the transform of the dequantised coded block that covers it, if its scan's reads are filled up to that block |
| Lossless.PlainReader.Bits | tools/ljpeg_decode.py:83-95 | each read returns the next bits of the unstuffed stream and fails exactly when they run out |
| Lossless.HuffDecode | tools/ljpeg_decode.py:112-128 | the first-code/rank loop computes the canonical decoding |
| Lossless.DecodeDifference | tools/ljpeg_decode.py:251-259 | a difference is its category's magnitude, 0 for category 0 and -32768 for category 16 |
| Lossless.DcValue | tools/ljpeg_decode.py:131-139 | the stand-alone difference reader, which reads 16 magnitude bits for category 16 |
| LosslessInverse.DcValueBack | tools/ljpeg_decode.py:131-139 | the stand-alone reader reads back every coded difference exactly but that of category 16, after which it takes 16 bits too many |
| Lossless.DecodeStream | tools/ljpeg_decode.py:215-271 | the interleaved loops fill the component arrays with the specified image |
| Prediction.DecodedByPredictor | tools/ljpeg_decode.py:195-271 | every decoded sample obeys the law of its predictor over the differences of the stream: rows add up for 1, columns for 2, diagonals for 3, rectangles for 4, halves downwards for 5 to 7, the first row and column in any case; and the transposed component is that of the exchanged predictor |
| Prediction.TransposingExchanges | tools/ljpeg_decode.py:195-212 | transposing a component exchanges predictors 1 and 2, and 5 and 6, and keeps the others |
| Prediction.PredictedIsForecast | tools/ljpeg_decode.py:195-212 | the decoder's prediction is that of Table H.1 of ITU-T T.81 over the whole image, with its rules for the first row and column |
| Prediction.BuildsUnique | tools/ljpeg_decode.py:259-271 | the differences of a component and its predictor determine it |
| Prediction.ImageReads | tools/ljpeg_decode.py:215-271 | with one of the seven predictors a stream is decoded exactly if its differences can be read |
| LosslessInverse.LosslessDecodesCoding | tools/ljpeg_decode.py:215-271 | an image coded with differences modulo 2^16 as in section H.1.2.1 of ITU-T T.81, padded and stuffed, always decodes to an image of its size, and to that image exactly when every difference lies in [-32768, 32767] |
| LosslessInverse.PrecisionCodable | tools/ljpeg_decode.py:195-271 | up to 14 bits for all seven predictors every difference has a category of at most precision plus one, and at 15 bits for predictors 1, 2, 3 and 7 of at most 15, so category 16 never occurs |
| LosslessInverse.PrecisionExact | tools/ljpeg_decode.py:195-271 | for a predictor the decoder returns every image of a precision that is coded with valid tables exactly if the precision is at most 14, or 15 with predictor 1, 2, 3 or 7 |
| LosslessInverse.FifteenBitImage | tools/ljpeg_decode.py:195-271 | a 2 by 2 image of 15-bit samples, coded with a valid table, that the decoder does not return for predictors 4, 5 and 6 |
| LosslessInverse.FullImageCodable | tools/ljpeg_decode.py:195-271 | with tables of all seventeen categories every image of the size can be coded |
| Crc32c.BuildTable | tool/src/checksums.rs:79-100 | entry i is eight division steps of i |
| Crc32c.TableStep | tool/src/checksums.rs:108-114 | one table lookup absorbs the eight bits of a byte |
| Crc32c.Digest | tool/src/checksums.rs:108-114 | the table loop computes the bit-serial CRC |
| Crc32c.DigestStream | tool/src/checksums.rs:121-138 | size and CRC are those of the whole file however it is cut into reads |
| Crc32c.CrcIsPolynomialDivision | tool/src/checksums.rs:74-114 | the CRC is the remainder of the polynomial division of section 12.1 of RFC 3720 |
| Crc32c.FourByteBurstDetected | tool/src/checksums.rs:108-114 | messages of one length that differ only within four consecutive bytes never share a CRC |
| Sidecar.WriteSidecar | tool/src/checksums.rs:249-281 | header lines, then the rows sorted by file |
| Sidecar.VerifyChecksums | tool/src/checksums.rs:369-430 | the line loop computes the specified verification, first error included |
| Sidecar.SidecarReadsBack | tool/src/checksums.rs:369-430 | the verifier skips exactly the header and checks exactly the written rows in sorted order, but for those of a file called `file` |
| Sidecar.FramesReadBack | tool/src/checksums.rs:193-223 | of frames as the walk collects them, names ending in .dng in any case, every row comes back |
| Sidecar.FramesVerifyExactly | tool/src/checksums.rs:369-430 | all rows of a clip's frames are ok exactly when each file is there with its recorded size and checksum |
| Sidecar.BurstIsReported | tool/src/checksums.rs:398-416 | damage within four consecutive bytes of a frame is always reported |
| SidecarRows.SidecarColumns | tool/src/checksums.rs:240-281 | a written sidecar is four header lines and one line of eight columns for every row in the order of the names, each column the row's |
| SidecarRows.FramesVerdicts | tool/src/checksums.rs:369-430 | of every frame the verification says missing, another size, another checksum or none of them exactly for what is on disk; only a file that cannot be read ends it |
| SidecarRows.FieldsNamed | tool/src/checksums.rs:385-396 | a row needs a decimal size of 64 bits and then a hexadecimal checksum of 32, and the first that is wrong is named |
| Partition.PartitionFiles | tool/src/bake.rs:414-438 | the loop computes the greedy split and fails exactly when some file exceeds the maximum, at the first such file |
| Partition.SplitIsGreedy | tool/src/bake.rs:414-438 | the parts are an in-order contiguous partition, each within the target or a single file, none empty, each full up to the next file |
| Partition.SplitIsOptimal | tool/src/bake.rs:414-438 | for at least one file no contiguous partition into parts that fit has fewer parts |
| Partition.OptimalExactly | tool/src/bake.rs:414-438 | the greedy split has the fewest parts exactly if there is a file; without one it is one empty part |
| BakeDir.Parts | tool/src/bake.rs:1194-1199 | one part, the greedy parts, or the first member that is too large |
| BakeContents.LaidOutUnless | tool/src/bake.rs:414-438 | a job cannot be laid out exactly if it is to be split and a member alone exceeds the maximum; the first such member is named |
| BakeContents.SplitAsAsked | tool/src/bake.rs:414-438 | below the target there is one archive; else every archive stays within it or holds one member, and none could have taken the next member |
| BakeContents.ArchivesHoldMembers | tool/src/bake.rs:1296-1324 | the archives hold consecutive stretches of the members, from the first to the last |
| BakeContents.NamesNumbered | tool/src/bake.rs:1202-1210 | one archive is named after the clip; several carry their numbers from 1, in two digits at least |
| BakeDir.OutputDir.PublishFile | tool/src/bake.rs:320-336 | a file is written to its temporary and renamed; cut off, the final name is as it was |
| BakeDir.OutputDir.BakeClip | tool/src/bake.rs:1221-1397 | a run performs exactly the specified steps up to where it is cut off |
| BakeRuns.PlanApart | tool/src/bake.rs:1200-1230 | the objects have names of their own, the manifest's is none of them, and neither is taken for a leftover, while its temporary is |
| BakeSteps.TemporariesApart | tool/src/bake.rs:1294-1306 | every temporary is hidden, is recognised as a leftover, and shares its name with no other of the bake |
| BakeRuns.PublishSound | tool/src/bake.rs:320-336 | wherever publishing is cut off, no final name holds anything wrong |
| BakeSteps.CutOffAnywhere | tool/src/bake.rs:320-336 | a run can be cut off after any step and within the next, a write leaving nothing or any octets and a removal any of its files |
| BakeSteps.LeftoversExactly | tool/src/bake.rs:276-284 | leftovers are exactly the files that end like an archive's temporary and the hidden files of three other endings |
| BakeSteps.StaleExactly | tool/src/bake.rs:1221-1287 | a redo removes the objects and their sidecars and nothing else |
| BakeResume.RunSound | tool/src/bake.rs:1221-1397 | wherever a run, resumed or not, is cut off, every final name that exists holds its right content |
| BakeResume.ResumeFinishes | tool/src/bake.rs:1221-1397 | from any directory a resumed run never refuses; if it bakes, everything is in place, no temporary is left and no other file has changed |
| BakeResume.EveryRunKeepsSound | tool/src/bake.rs:1221-1397 | over any sequence of runs, flags and crash points the final names stay right |
| BakeResume.ResumeEndsRight | tool/src/bake.rs:1221-1397 | after any crashes a completed resumed run leaves the archive, the sidecars and, apart from its date, the manifest of an uninterrupted run |
| BakeContents.EveryMemberArchived | tool/src/bake.rs:1221-1397 | once a resumed run completes, after any crashes, every member lies in exactly one archive on disk, in its place |
| BakeResume.SkippedPresent | tool/src/bake.rs:225-270 | a skip happens only over an archive that its sidecar verifies, with a manifest beside it |
| BakeCompletion.SidecarVerifies | tool/src/bake.rs:205-223 | a written sidecar verifies an object exactly when it records its digest |
| BakeSteps.AnySidecarVerifies | tool/src/bake.rs:205-223 | after any blank lines, a digest in either case and anything behind two spaces verifies exactly the object with that digest |
| BakeSteps.OnlyDigestsVerify | tool/src/bake.rs:205-223 | a field in that place is refused exactly if it is not 64 hexadecimal digits |
| BakeSteps.SidecarNamesObject | tool/src/bake.rs:320-327 | a sidecar is one line of the digest, two spaces and the object's name |
| BakeCompletion.ManifestCounts | tool/src/bake.rs:252-258 | the file count read from a written manifest is the number of members |
| BakeSteps.CompletionSays | tool/src/bake.rs:231-262 | a missing object, sidecar or manifest, a digest that differs and a missing or unreadable count are told apart; the check passes exactly if all is there, the digest verifies and the count is that of the rows |
| BakeSteps.CountsFirst | tool/src/bake.rs:252-258 | the file count is what the first line that begins with its key, once or several times, says |
| BakeSteps.HeaderSays | tool/src/bake.rs:1343-1361 | a manifest's header names its kind, clip, time, tool, codec, container and level, each under its key |
| BakeAudit.ParseBakeManifest | tool/src/audit/sidecars.rs:386-493 | the line loop of the audit's reader computes the specified reading, first error included |
| BakeAudit.ManifestAudited | tool/src/audit/sidecars.rs:386-493 | the audit reads a bake's manifest back, clip, archives and every member's path, size and digest in order, exactly if the clip's name is trimmed, without tab and line feed and, where archives are listed, without a comma, there is a member, and every member has a path for a column and a size of 64 bits |
| BakeAudit.ParsedIsClean | tool/src/audit/sidecars.rs:386-493 | whatever is read, the clip is trimmed, no archive has a comma, every row has a stem and a size of 64 bits, and there is a row |
| BakeAudit.ParsedIsStrict | tool/src/audit/sidecars.rs:386-493 | whatever is read begins with the manifest's first line, has no tab before its column line, takes every other line with a tab for a row, and announces as many rows as it has |
| BakeAudit.FinishedAudits | tool/src/audit/sidecars.rs:386-493 | the manifest that a completed bake leaves on disk reads as its job |
| BakeCompletion.ResumeIsIdempotent | tool/src/bake.rs:225-270 | after a finished bake resuming changes nothing |
| BakeCompletion.StaleArchiveIsKept | tool/src/bake.rs:225-270 | over a finished single-archive bake of the same name and container kind, a resumed run skips exactly if it too makes one archive of as many files; its archives are in place afterwards exactly if it did not skip or the two inputs give one container |

## Left out

- The SHA-512 round function and constants, the float32 inverse DCT and its quality metrics, tar and zstd: parameters of the models.
- I/O errors while reading or writing, fsync, symbolic links, inode cycle guards, permissions and names that are not UTF-8.
- Torn writes of the history's chain and manifest: a crash falls before, between or after the two writes, as the source writes each file in one call.
- Foreign chains: appending is proved for chains this writer produced; one that does not end with its closing tag is refused as in the source.
- Generation 2^32: the increment is modelled as wrapping; a build with overflow checks stops instead.
- The DC chain leaving 32 bits: the sum is modelled as wrapping; a build with overflow checks stops instead.
- DC symbols above 16 in a scan: shifts by more than 31 bits stop the program and are not modelled.
- Frame geometries other than four 1928 by 1088 tiles over a width of 3856 and a height of at most 2176.
- Frame sizes and file size sums that overflow their integer width.
- Lossless.DecodeStream: does not model that samples are stored as 32-bit integers, because no image of at most 16-bit samples that comes back holds one outside them; a corrupt stream can.
- parse_stream and build_huff of the lossless decoder: the tables, size and predictor are taken as already parsed, each table with 16 counts.
- Removing stale temporaries below subdirectories: the bake's output directory is modelled flat, and all removals succeed.
- The order in which leftovers are removed, and the ISO staging, provenance and reel layers above one clip's bake.
- The audit of archive contents (the tar listing and the member sweep), and Path::file_stem, a parameter of the manifest's reader.
- audit_mhl, whose summary drops the root verdict; the seal is stated on the result of the verification itself.
- Camera profiles, downscaling, derived outputs, the user interfaces and the command line.
