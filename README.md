# integritycheck / fhistory core, modelled in Dafny

The repository holds two generations of a file-integrity tool. This project
models the core of both.

The Rust generation (`src/`) keeps snapshots of a data directory.
- `IndexSnapshot` is a sorted map from path to {size, mtime, checksum}. It has a line-oriented text encoding with its own escaping (`\\`, `\n`, `\_`).
- `IndexDirectory` stores compressed snapshots as `{timestamp}-{checksum}.idx`, lists them newest first, refuses an append that is not newer and rejects a load whose checksum does not match.
- `diff` compares two snapshots rename-aware. `list_files` and `filter_diffs` work on its result.
- `check_excludes`, `scan_metadata` and `scan_checksums` build the actual snapshot from a directory walk.
- The checksum-name mapping, and `ack`: pathspec checking and the commit loop that folds the accepted diffs into the latest snapshot.

The C++ generation (top level) verifies files against an index file.
- A cursor-driven index-line reader (`index_read.cc`) with its own escapes (`\ `, `\\`, `\n`).
- A typed hex checksum codec (`checksum.cc`; MD5 = 16 bytes, SHA-1 = 20 bytes, Base16 as in section 8 of RFC 4648).
- The index container (`index.cc`).
- The verify classifier with its counters and messages (`op_verify.cc`).
- The hit/miss search against a set of decoded checksums (`cmd_search.cc`).

Each core file is modelled in its own form.
- In-place objects are classes: `IndexSnapshot`, `IndexDirectory`, the C++ `Index` and `VerifyResult`. Their methods carry `modifies` clauses and state the whole new state.
- Loops are methods with invariants. Each is proved equal to a specification function, and the source's promises are lemmas about those functions.
- Pure code (`compare_finfo`, `check_excludes`, the checksum-name mapping, the byte converters) is functions.

Digests (SHA-256, MD5, SHA-1), zlib compression, the file system, the directory walk, standard input and the clock are parameters:
- function values for the digests and the compression;
- a map from path to contents for the files;
- lists for a walk, a directory listing or the lines of a file;
- `Option`/`Result` values for an I/O step that can fail.

Errors the source raises (`Err(..)` in Rust, a thrown `std::runtime_error` in C++) are `Err(message)` values of a `Result` type.

## Model

| member | source | states |
|---|---|---|
| ChecksumFunction.FromStr | src/checksum.rs:21-27 | accepts exactly "sha256" and "md5", and the name it accepts is the one `to_str` writes back |
| ChecksumFunction.FromStrNames | src/checksum.rs:21-24 | "sha256" maps to SHA256 and "md5" to MD5 |
| ChecksumFunction.FromStrToStr | src/checksum.rs:21-34 | `from_str(to_str(f)) == Ok(f)` for both functions |
| ChecksumFunction.ToStrInjective | src/checksum.rs:29-34 | `to_str` gives different names to different functions |
| ChecksumFunction.ComputeFileIsCompute | src/checksum.rs:36-84 | `compute_file(f, p)` is `compute(f, contents of p)` when the file can be read, and an error when it cannot |
| Escaping.EncodeString | src/index.rs:342-355 | the character loop builds exactly the escaped string |
| Escaping.DecodeString | src/index.rs:357-379 | the loop with its `escape` flag returns exactly the reference unescaping, error included |
| Escaping.EscapeConcat | src/index.rs:345-352 | escaping works character by character: escaping `a + b` is escaping `a` followed by escaping `b` |
| Escaping.EscapeHasNoSeparators | src/index.rs:345-352 | escaped text never contains a space or a newline |
| Escaping.EscapeLastChar | src/index.rs:345-352 | escaped text ends in '\r' exactly when the original does |
| Escaping.UnescapeEscape | src/index.rs:342-379 | `decode_string(encode_string(s)) == Ok(s)` for every string |
| Escaping.UnescapeRejectsBadEscape | src/index.rs:357-379 | after any text that leaves no escape pending, a backslash followed by anything but `\`, `n` or `_` makes the whole decode an error, whatever follows |
| Escaping.EscapeSettles | src/index.rs:342-379 | escaped text leaves the decoder with no escape pending, so the rejection above applies after every escaped field |
| Escaping.UnescapeDropsTrailingBackslash | src/index.rs:357-379 | a lone trailing backslash is dropped without error |
| Snapshot.IndexSnapshot.constructor | src/index.rs:193-199 | `new` has the given checksum function, no files and no message |
| Snapshot.IndexSnapshot.FromValue | src/index.rs:325-329 | builds the snapshot `decode` returns from its three parts |
| Snapshot.IndexSnapshot.List | src/index.rs:201-203 | the paths in ascending order, each key once |
| Snapshot.IndexSnapshot.Update | src/index.rs:213-219 | inserts or replaces the record of the given path only; function and message unchanged |
| Snapshot.IndexSnapshot.Delete | src/index.rs:221-227 | removes the given path only; function and message unchanged |
| Snapshot.IndexSnapshot.TotalSizeBytes | src/index.rs:229-234 | the sum of all record sizes, modulo 2^64 |
| Snapshot.IndexSnapshot.TotalFileCount | src/index.rs:236-238 | the number of keys |
| Snapshot.IndexSnapshot.Encode | src/index.rs:240-267 | the text is `#checksum`, `#timestamp`, the optional `#message`, then one record line per path in ascending order; "missing checksum" if any record lacks one |
| Snapshot.IndexSnapshot.Decode | src/index.rs:269-330 | the line loop returns exactly the reference decoding, with each of its errors; a bad size or a malformed line is reported with the quoted line |
| Snapshot.EncodeRecords | src/index.rs:253-264 | appends one record line per key, or fails with "missing checksum" exactly when some record has none |
| Snapshot.FormatRecord | src/index.rs:258-263 | `checksum size mtime path`, with an absent mtime written as 0 and the path escaped |
| Snapshot.UpdateTotals | src/index.rs:213-238 | after `update`, the total size gains the new size and loses the replaced one; the count grows by one exactly when the path was new |
| Snapshot.DeleteTotals | src/index.rs:221-238 | after `delete`, the total size loses the removed size and the count drops by one, or nothing changes when the path was absent |
| Snapshot.SumSizesRemove | src/index.rs:229-234 | the total size of a map is any one record's size plus the total of the rest |
| Snapshot.SumOverSorted | src/index.rs:229-234 | summing in ascending key order gives the total size: the order of the fold does not matter |
| Snapshot.FoldSizesIsSum | src/index.rs:229-234 | the wrapping u64 fold equals the exact sum modulo 2^64 |
| Snapshot.ErrSticky | src/index.rs:276-317 | once a line fails, later lines cannot undo the error |
| SnapshotCodec.StepOk | src/index.rs:277-316 | one line is accepted exactly when it is a 2-field `#checksum`/`#timestamp`/`#message` header with a valid value, or a 4-field record with a valid path and size |
| SnapshotCodec.DecodeFromOk | src/index.rs:276-317 | the line loop succeeds exactly when every line is accepted; the last `#checksum` and `#timestamp` headers win |
| SnapshotCodec.DecodeSpecOk | src/index.rs:269-329 | `decode` succeeds exactly when every line is accepted, the last `#checksum` names a known function and the last `#timestamp` equals the expected one (0 when absent) |
| SnapshotCodec.RejectsMalformedLine | src/index.rs:298-316 | a line that is neither a 2-field header nor a 4-field record fails the decode |
| SnapshotCodec.RejectsInvalidSize | src/index.rs:302-305 | a record whose size is not a u64 fails the decode |
| SnapshotCodec.RoundTrip | src/index.rs:240-329 | `decode(encode(s, t), t)` gives back the files and message when every checksum is present and has no space or newline, and no path or message ends in '\r'; an absent mtime comes back as `Some(0)` |
| SnapshotCodec.DecodeHeader | src/index.rs:243-251 | the header lines decode to the checksum name, the message and the timestamp they were written from |
| SnapshotCodec.RecordStep | src/index.rs:258-263 | decoding one written record line sets that path's record, mtime normalised |
| SnapshotCodec.DecodeRecords | src/index.rs:253-314 | decoding the written record lines restores every record |
| SnapshotCodec.EncodedLines | src/index.rs:240-266 | the encoded text splits back into exactly the header lines and the record lines |
| SnapshotCodec.HeaderLineClean | src/index.rs:243-251 | no header line contains a newline or ends in '\r', so `lines()` gives it back whole |
| SnapshotCodec.RecordLineClean | src/index.rs:258-263 | the same for every record line |
| SnapshotCodec.RecordLineFields | src/index.rs:258-277 | splitting a written record line at spaces gives its four fields |
| Text.ParseU64Decimal | src/index.rs:302 | a size written in decimal parses back to itself |
| Text.ParseI64SignedDecimal | src/index.rs:285 | a timestamp written in decimal parses back to itself |
| Text.SplitJoin | src/index.rs:277 | splitting at a separator that no field contains gives the fields back |
| Text.LinesJoinLines | src/index.rs:266-276 | `lines()` gives back lines that were each written with a trailing newline, when none contains a newline or ends in '\r' |
| Text.SortedKeysSpec | src/index.rs:253 | `BTreeMap` iteration visits every key once, in strictly ascending order |
| Text.SortedPaths | src/index.rs:201-203 | collecting the keys by repeated minimum gives the ascending order |
| IndexDirectory.ParseWellFormedName | src/index.rs:19-92 | every name of the form digits, '-', `[a-z0-9]+`, ".idx" matches the pattern, and is refused only when the number overflows i64 |
| IndexDirectory.FilenameRoundTrip | src/index.rs:336-338 | parsing `filename(r)` gives back `r`, for a non-negative timestamp and a `[a-z0-9]+` checksum |
| IndexDirectory.ParsedFilenameShape | src/index.rs:19-92 | what parses has a non-negative timestamp and a `[a-z0-9]+` checksum, and is written back to a name that parses to the same reference |
| IndexDirectory.LeadingZeroAccepted | src/index.rs:84-92 | "007-ab.idx" is accepted as timestamp 7 and is written back as "7-ab.idx" |
| IndexDirectory.NegativeTimestampUnlisted | src/index.rs:19-20 | the file name of a negative timestamp does not match the pattern |
| IndexDirectory.ParseAllSpec | src/index.rs:71-93 | the listing loop fails exactly when some entry does not parse, otherwise it yields each entry's reference in order |
| IndexDirectory.ParseAllSticky | src/index.rs:71-93 | the first bad entry ends the loop |
| IndexDirectory.InsertSpec | src/index.rs:95 | inserting keeps the list newest first and adds exactly the one reference |
| IndexDirectory.SortNewestFirstSpec | src/index.rs:95 | the sort yields a newest-first permutation of its input |
| IndexDirectory.OpenSpecProperties | src/index.rs:50-101 | `open` fails exactly when the index path is missing, `read_dir` fails, or some entry fails, has a name that is not Unicode or does not parse; otherwise every entry had a parsable name and each is listed once, newest first |
| IndexDirectory.ResolveIndexPath | src/index.rs:51-55 | an absolute index path is kept; a relative one ends up under the data directory; either way the result ends with the given path, and it is absolute when either input is |
| IndexDirectory.IndexDirectory.ParseListing | src/index.rs:69-93 | the entry loop returns exactly `ParseAll` of the entries: each reference in order, or the first entry's error |
| IndexDirectory.IndexDirectory.Open | src/index.rs:50-101 | on the resolved index path, the existence check, the `read_dir` result, the entry loop and the sort return exactly what `OpenSpec` describes, error texts included; the directory keeps the resolved path |
| IndexDirectory.IndexDirectory.Latest | src/index.rs:121-123 | `None` exactly for an empty listing, otherwise a listed reference at least as new as every other |
| IndexDirectory.AppendIsNewest | src/index.rs:161-176 | an accepted append is strictly newer than every listed snapshot and carries the given timestamp |
| IndexDirectory.IndexDirectory.Append | src/index.rs:157-187 | returns the reference of `AppendSpec`; leaves the directory's files as `AppendStore` says: the compressed encoding under the reference's name on success, a prefix of it when writing breaks off after the file was created, nothing new otherwise; leaves `index_files` unchanged |
| IndexDirectory.AppendStoreSpec | src/index.rs:157-187 | a successful append stores the compressed encoding under the returned reference's name; any failure other than a broken-off write leaves the directory's files as they were |
| IndexDirectory.PartialWriteListed | src/index.rs:178-186 | when writing breaks off, `append` errs, yet the directory holds a prefix of the encoding under the name the reference would have had, and the next listing parses that name as the reference |
| IndexDirectory.LoadChecksMatch | src/index.rs:146-152 | a successful load's compressed bytes hash to the reference's checksum |
| IndexDirectory.JoinPath | src/index.rs:131 | the joined path starts with the directory and ends with the file name, with no separator added after an empty directory or one ending in `/` |
| IndexDirectory.IndexDirectory.Load | src/index.rs:129-155 | returns exactly what `LoadSpec` describes: read, inflate, decode, then the checksum check, whose error quotes the index path joined with the file name |
| IndexDirectory.AppendThenLoad | src/index.rs:129-187 | loading what `append` wrote gives back the snapshot, mtimes normalised, when inflate undoes deflate |
| IndexDiff.CompareFinfoCases | src/index_diff.rs:156-171 | differing mtimes always give `MetadataModified`; with equal mtimes a size difference gives `Modified`; with equal sizes only an actual checksum that differs gives `Modified`, otherwise nothing |
| IndexDiff.CompareFinfoSelf | src/index_diff.rs:156-171 | a record compared with itself gives no diff |
| IndexDiff.Diff | src/index_diff.rs:41-116 | the two passes and the collapse return exactly `DiffSpec` |
| IndexDiff.DiffTargetPass | src/index_diff.rs:47-74 | the target loop yields exactly the reference target pass |
| IndexDiff.DiffActualPass | src/index_diff.rs:76-103 | the actual loop yields exactly the reference actual pass |
| IndexDiff.ListFiles | src/index_diff.rs:118-133 | one path per diff, in order, `from` for a rename |
| IndexDiff.FilterDiffs | src/index_diff.rs:135-153 | returns exactly the reference filter |
| IndexDiff.AnyStartsWith | src/index_diff.rs:147 | true exactly when the path lies under some allowed path |
| IndexDiff.FilterSubsequence | src/index_diff.rs:135-153 | the result is an order-preserving subsequence of the input |
| IndexDiff.FilterCount | src/index_diff.rs:135-153 | a diff is kept, every time it occurs, exactly when its path lies under an allowed path |
| IndexDiff.FilterNothingAllowed | src/index_diff.rs:147 | an empty allowed list keeps nothing |
| IndexDiffProperties.DeletedOrRenamed | src/index_diff.rs:48-113 | a target path absent from actual is reported exactly once, as `Deleted` or as the `from` of one `Renamed`; any other path never is |
| IndexDiffProperties.CreatedOrRenamed | src/index_diff.rs:78-103 | an actual path absent from target is reported exactly once, as `Created` or as the `to` of one `Renamed`; any other path never is |
| IndexDiffProperties.RenamedOnlyWhenSame | src/index_diff.rs:55-95 | a rename pairs a vanished path with a new one, both with checksums and equal (checksum, size, mtime) keys |
| IndexDiffProperties.CreatedWithoutChecksum | src/index_diff.rs:80-101 | a new path without a checksum is reported `Created` |
| IndexDiffProperties.CreatedWithoutCandidate | src/index_diff.rs:87-101 | a new path whose key matches no vanished path is reported `Created` |
| IndexDiffProperties.SmallestCandidateFirst | src/index_diff.rs:87-94 | a vanished path left `Deleted` is larger than every rename source with the same key: candidates are taken smallest first |
| IndexDiffProperties.DiffNone | src/index_diff.rs:48-103 | snapshots with the same paths and no differing record give no diff |
| IndexDiffProperties.DiffSelf | src/index_diff.rs:41-116 | `diff(s, s)` is empty |
| IndexDiffProperties.CommonPaths | src/index_diff.rs:69-72 | a (metadata) modification is reported exactly for a path in both snapshots whose records compare that way |
| IndexDiffProperties.DiffTargetsInActual | src/index_diff.rs:41-116 | created, modified and renamed-to paths are in actual; deleted and renamed-from paths are not |
| IndexDiffProperties.DiffJustified | src/index_diff.rs:41-116 | every reported diff is justified by the two snapshots |
| IndexDiffProperties.DiffCovers | src/index_diff.rs:41-116 | every vanished, new or differing path is reported by some diff |
| Paths.UnderAnyExists | src/index_scan.rs:120-123 | `any(starts_with)` holds exactly when some base is a component prefix |
| Paths.StripPrefix | src/op_acknowledge.rs:67-70 | `strip_prefix` succeeds exactly when `starts_with` holds |
| Paths.SiblingNotUnder | src/index_scan.rs:123 | "a/bc" does not start with "a/b": whole components are compared |
| Paths.ChildUnder | src/index_scan.rs:123 | "a/b/c" starts with "a/b" |
| Paths.TrailingSlashUnder | src/index_scan.rs:123 | "a/b/" starts with "a/b" |
| Paths.StartsWithEmpty | src/index_scan.rs:123 | every path starts with the empty path |
| IndexScan.CheckExcludesSpec | src/index_scan.rs:118-141 | a path is scanned exactly when it is under no exclude path and, if an exclusive list is given, under one of its entries |
| IndexScan.ExcludeWins | src/index_scan.rs:118-128 | a path under an exclude path is never scanned, whatever the exclusive list says |
| IndexScan.NoExclusiveList | src/index_scan.rs:118-140 | without an exclusive list only the exclude rule applies |
| IndexScan.EmptyExclusiveList | src/index_scan.rs:130-138 | an empty exclusive list scans nothing |
| IndexScan.ExcludesWholeComponents | src/index_scan.rs:123-133 | excluding "a/b" skips "a/b/c" but not "a/bc" |
| IndexScan.MetadataFromOk | src/index_scan.rs:33-67 | the metadata scan succeeds exactly when no walk entry aborts |
| IndexScan.MetadataFromRecords | src/index_scan.rs:44-79 | every scanned file gets {size, mtime, no checksum} from its last visit; every other record is kept |
| IndexScan.MetadataFromError | src/index_scan.rs:33-67 | an error is the error of some walk entry |
| IndexScan.NonFileSkipped | src/index_scan.rs:44-46 | an entry that is not a regular file changes nothing |
| IndexScan.ScanMetadata | src/index_scan.rs:21-83 | the loop returns exactly the reference metadata scan; function and message unchanged |
| IndexScan.VisitEntry | src/index_scan.rs:34-79 | one entry's abort, skip or record, in the order of the source's checks |
| IndexScan.ChecksumsFromOk | src/index_scan.rs:91-107 | the checksum scan succeeds exactly when every scanned path can be read |
| IndexScan.ChecksumsFromValue | src/index_scan.rs:92-107 | scanned paths get the computed checksum with size and mtime kept; other records are unchanged |
| IndexScan.ChecksumsFromError | src/index_scan.rs:98-105 | an error comes from a scanned path that cannot be read |
| IndexScan.ScanChecksumsProperties | src/index_scan.rs:85-116 | the same three facts for the whole scan: when it succeeds, what each record becomes, and where an error comes from |
| IndexScan.ScanChecksumsKeys | src/index_scan.rs:91-107 | the checksum scan never adds or removes a key |
| IndexScan.ScanChecksums | src/index_scan.rs:85-116 | the loop returns exactly the reference checksum scan; function and message unchanged |
| Acknowledge.PathspecsFromOk | src/op_acknowledge.rs:56-71 | the pathspec loop succeeds exactly when every pathspec canonicalises and lies under the data root |
| Acknowledge.PathspecsFromValues | src/op_acknowledge.rs:63-70 | each accepted pathspec is stored relative to the root, in order |
| Acknowledge.NoPathspecFails | src/op_acknowledge.rs:73-75 | no pathspec is an error |
| Acknowledge.OutsideFails | src/op_acknowledge.rs:63-65 | a pathspec outside the data root is an error |
| Acknowledge.ValidatePathspecs | src/op_acknowledge.rs:51-75 | the loop returns exactly the reference pathspec check, or the root's canonicalisation error |
| Acknowledge.ApplyAllPaths | src/op_acknowledge.rs:116-132 | after the commit loop, each path is removed, taken from current, or unchanged, according to the last diff naming it |
| Acknowledge.ApplyDiffs | src/op_acknowledge.rs:116-132 | the loop mutates the snapshot into exactly the corrected fold; function and message unchanged |
| Acknowledge.DiffApplicable | src/op_acknowledge.rs:122-130 | every path the diffs take from current is in current, so the `unwrap` calls cannot panic |
| Acknowledge.FilteredApplicable | src/op_acknowledge.rs:98-132 | the same holds after filtering by pathspecs |
| Acknowledge.AcknowledgeAllClearsDiff | src/op_acknowledge.rs:116-132 | with the corrected loop, acknowledging every diff leaves no diff against current |
| Acknowledge.MetadataKept | src/op_acknowledge.rs:116-131 | as written, no diff changes the record of a path whose mtime changed |
| Acknowledge.MetadataChangeNeverAcknowledged | src/op_acknowledge.rs:116-131 | as written, a metadata change is reported, kept out of the new snapshot, and reported again |
| Acknowledge.MetadataChangeExample | src/op_acknowledge.rs:116-131 | a one-file instance of the above |
| Acknowledge.Commit | src/op_acknowledge.rs:98-134 | returns exactly `CommitSpec` and leaves the directory's files as `CommitStore` says: "Nothing to commit" (`Ok(None)`) with nothing changed when no diff is left under the pathspecs, the error of the checksum scan or of `append`, or the reference `append` returns; on success `current` holds the checksummed records of the scan, the snapshot is the latest one plus the diffs applied from them, and its compressed encoding is stored under the reference's file name; `index_files` is never extended |
| Acknowledge.CommitFailureKeepsStore | src/op_acknowledge.rs:98-134 | a commit that appends nothing, or fails other than by a write breaking off after the file was created, leaves the directory's files as they were |
| Acknowledge.CommitDiffs | src/op_acknowledge.rs:107-134 | returns exactly `CommitDiffsSpec` and leaves the directory's files as `CommitDiffsStore` says: the scan error with the snapshot unchanged, or what `append` returns for the latest snapshot with the diffs applied from the scanned records; once the scan succeeds, `current` holds exactly the scanned records and the snapshot is the latest one plus the diffs applied from them; on success the store gains that encoding under the new file name |
| Acknowledge.CommitNothing | src/op_acknowledge.rs:98-105 | a commit appends nothing exactly when no diff is left under the pathspecs |
| Acknowledge.CommitNewest | src/op_acknowledge.rs:107-134 | an appended snapshot carries the given time and is newer than every listed snapshot |
| Acknowledge.CommitThenLoad | src/op_acknowledge.rs:107-134 | after a successful commit the directory holds the compressed encoding of the latest snapshot with the diffs applied from the scanned records, under the returned name, and loading it gives that snapshot back (mtimes normalised), when inflate undoes deflate and every record has a clean checksum |
| ChecksumCodec.Size | checksum.cc:9-18 | 16 for MD5, 20 for SHA-1 |
| ChecksumCodec.ReadType | checksum.cc:20-30 | accepts exactly "md5" and "sha1", and errors with the input otherwise |
| ChecksumCodec.ReadTypeName | checksum.cc:20-30 | each type's name reads back as that type |
| ChecksumCodec.ReadValueByte | checksum.cc:32-59 | accepts exactly `0-9a-fA-F`, giving the digit's value |
| ChecksumCodec.WriteValueByte | checksum.cc:76-97 | accepts exactly values below 16, giving a lowercase digit |
| ChecksumCodec.ValueByteRoundTrip | checksum.cc:32-97 | writing a read digit gives its lowercase; reading a written digit gives the value |
| ChecksumCodec.DecodeValue | checksum.cc:61-74 | accepts exactly `2 * size` hex digits, giving `size` bytes |
| ChecksumCodec.ReadValue | checksum.cc:61-74 | the loop decodes the digit pairs, high nibble first |
| ChecksumCodec.WriteValue | checksum.cc:99-109 | the loop writes `2 * size` lowercase digits, high nibble first |
| ChecksumCodec.WriteChecksum | checksum.cc:111-113 | the same for a checksum |
| ChecksumCodec.ValueRoundTrip | checksum.cc:61-109 | `read_value(write_value(v, t), t) == v`, and `write_value(read_value(s, t), t)` is the lowercase of `s` |
| ChecksumCodec.Compare | checksum.cc:115-127 | false when the types differ, otherwise true exactly when the values are equal |
| ChecksumCodec.CompareByHex | checksum.cc:99-127 | two checksums compare equal exactly when they have the same type and the same hex text |
| ChecksumCodec.ComputeSha1 | checksum.cc:129-175 | an SHA-1 checksum of the file's contents, or "unable to open file" for a missing file |
| Hex.HexStringLower | checksum.cc:99-109 | hex output is lowercase |
| Hex.DecodeEncode | cmd_search.cc:44-95 | `hex_decode(hex_encode(x)) == x` |
| Hex.EncodeDecode | checksum.cc:61-109 | encoding decoded hex gives its lowercase |
| Hex.HexStringInjective | cmd_search.cc:86-95 | different byte strings have different hex |
| Hex.LowerHexCharValue | cmd_search.cc:15-84 | a written digit reads back as its value |
| Hex.HexValueLowerChar | cmd_search.cc:15-84 | writing a digit's value gives the digit in lowercase |
| Search.HexDecodeChar | cmd_search.cc:15-42 | accepts exactly `0-9a-fA-F`, giving the digit's value |
| Search.HexEncodeChar | cmd_search.cc:63-84 | accepts exactly values below 16, giving a lowercase digit |
| Search.HexDecode | cmd_search.cc:44-61 | fails exactly on odd length or a non-hex digit; otherwise `n/2` bytes, each `hi << 4 \| lo` |
| Search.HexEncode | cmd_search.cc:86-99 | `2n` lowercase digits, high nibble first |
| Search.LineChecksum | cmd_search.cc:129-131 | a good line contributes the 20 bytes of its first 40 digits |
| Search.IndexLoad | cmd_search.cc:101-138 | the loop returns exactly the reference loading, or "unable to open file" |
| Search.LoadSticky | cmd_search.cc:111-137 | the first bad line ends the loading |
| Search.LoadFromOk | cmd_search.cc:125-134 | loading succeeds exactly when every line has at least 40 characters and its first 40 are hex |
| Search.LoadFromMembers | cmd_search.cc:129-136 | the loaded set is the initial set plus the checksum of every line |
| Search.LoadIgnoresRest | cmd_search.cc:129-131 | only the first 40 characters of a line matter |
| Search.ShortLineFails | cmd_search.cc:125-127 | a line shorter than 40 characters fails the loading |
| Search.Verdict | cmd_search.cc:191-195 | "hit path" when the file's SHA-1 is in the set, "miss path" otherwise |
| Search.VerdictDistinct | cmd_search.cc:191-195 | the answer starts with "hit " exactly when the checksum is in the set |
| Search.Answer | cmd_search.cc:176-196 | one answer per path in order, stopping with "unable to open file" at the first missing file |
| Search.Search | cmd_search.cc:140-197 | no index path, an unopenable or bad index file are errors with no output; otherwise the answers, stopping with the error of the first path that cannot be opened |
| IndexRead.Scan | index_read.cc:17-46 | the cursor never moves back or past the end, and moves forward when there is input left |
| IndexRead.FieldAt | index_read.cc:7-47 | a cursor at or past the end is an error; otherwise the cursor moves strictly forward and stays within the line |
| IndexRead.ReadField | index_read.cc:7-47 | the loop returns exactly the reference field reading |
| IndexRead.ScanEscaped | index_read.cc:18-44 | reading an escaped field gives back the field |
| IndexRead.FieldRoundTrip | index_read.cc:18-46 | an escaped field followed by a space is read back with the cursor just past the space; at the end of the line, with the cursor at the end |
| IndexRead.FieldEdgeCases | index_read.cc:13-41 | an empty line is rejected, a trailing backslash is dropped, an unknown escape is an error and `\ ` is a space |
| IndexRead.StoullDecimal | index_read.cc:62 | a size written in decimal reads back as itself |
| IndexRead.StoullTrailing | index_read.cc:62 | `stoull` stops at the first non-digit |
| IndexRead.StoullNegative | index_read.cc:62 | `stoull` wraps a negative number around 2^64 |
| IndexRead.StoullNoDigits | index_read.cc:62 | `stoull` of text without digits is an error |
| IndexRead.ChecksumOf | index_read.cc:70-76 | a checksum read from a field has the size of its type |
| IndexRead.ChecksumRoundTrip | index_read.cc:65-78 | `type:value` as written reads back as the checksum |
| IndexRead.ReadChecksum | index_read.cc:65-79 | the field, split at the first ':', read by type then value |
| IndexRead.ChecksumsRoundTrip | index_read.cc:91-93 | written checksums read back in their written order |
| IndexRead.RecordOfFields | index_read.cc:81-96 | a record is the path, then the size, then the checksums to the end of the line |
| IndexRead.RecordRoundTrip | index_read.cc:81-96 | a written record reads back as itself |
| IndexRead.ReadRecord | index_read.cc:81-96 | the record is read as specified and added at the end of the index only when it reads |
| IndexRead.CollectMeaning | index_read.cc:107-123 | the records kept are those read before the first error, in line order |
| IndexRead.ReadAllMeaning | index_read.cc:107-123 | the records are those of the first lines, in order; an error is that of the first bad line |
| IndexRead.ReadAllOk | index_read.cc:107-123 | reading succeeds exactly when every line is a record, giving one record per line |
| IndexRead.WrittenIndexRoundTrip | index_read.cc:98-124 | an index written line by line reads back as its records |
| IndexRead.RecordOfValid | index_read.cc:65-96 | every checksum of a record read has the size of its type |
| IndexRead.ReadAllValid | index_read.cc:98-124 | the same for every record of a file |
| IndexRead.ReadRecords | index_read.cc:98-131 | "unable to open file" with the index untouched, or the records read appended in order with the first error |
| IndexRecords.PathsOfMembers | index.cc:7-15 | the path set holds exactly the paths of the entries |
| IndexRecords.PathsOfSize | index.cc:10-12 | duplicate paths collapse: the set is no larger than the entry count |
| IndexRecords.Index.constructor | index.h:25-27 | an index starts with no entries |
| IndexRecords.Index.Add | index.cc:3-5 | the entry goes at the end, the length grows by one and earlier entries are unchanged |
| IndexRecords.Index.BuildPathSet | index.cc:7-15 | the loop builds exactly the set of entry paths |
| Verify.VerifyResult.constructor | op_verify.cc:77-80 | the counters start at zero with no message |
| Verify.VerifyResult.AddOk | op_verify.cc:10-12 | one more intact file, no message |
| Verify.VerifyResult.AddMissing | op_verify.cc:14-20 | one more missing file and its MISSING message |
| Verify.VerifyResult.AddCorruptSize | op_verify.cc:22-28 | one more corrupt file and its CORRUPT_SIZE message |
| Verify.VerifyResult.AddCorruptData | op_verify.cc:30-36 | one more corrupt file and its CORRUPT_DATA message |
| Verify.RecordChecksums | op_verify.cc:38-51 | true exactly when there is a checksum and every one equals the file's SHA-1 |
| Verify.VerifyRecord | op_verify.cc:53-74 | the result takes exactly the outcome of the record: missing, then size, then data, else intact |
| Verify.OpVerify | op_verify.cc:76-90 | "unable to open file" or the reading error, otherwise the totals of verifying every record |
| Verify.ReadIndex | op_verify.cc:82-83 | the records of the index file or its error; every checksum read has the size of its type |
| Verify.VerifyAll | op_verify.cc:85-87 | the loop from zero yields the totals of the records' outcomes in order |
| Verify.FindingsAppend | op_verify.cc:85-87 | a record's outcome depends on that record alone: verifying `a + b` finds what verifying `a`, then `b`, finds |
| Verify.CountsAddUp | op_verify.cc:53-87 | each record bumps exactly one counter: ok + missing + corrupt is the number of records |
| Verify.OneMessagePerProblem | op_verify.cc:10-36 | there is one message per missing or corrupt file and none for an intact one |
| Verify.ReportsAppend | op_verify.cc:85-87 | the messages of two runs of records are those of each, in order |
| Verify.MessagesInOrder | op_verify.cc:85-87 | the messages are those of the non-intact records, in index order |
| Verify.FileTotalsMeaning | op_verify.cc:76-90 | for a whole index file: the counters add up to the records read, and the messages are one per problem, in order |
| Verify.ExistenceThenSize | op_verify.cc:58-66 | MISSING exactly for a missing file; CORRUPT_SIZE exactly for an existing file of the wrong size, before any data check |
| Verify.DataCheck | op_verify.cc:38-71 | with existence and size right, the file is intact exactly when there is a checksum and all equal its SHA-1; no checksum gives CORRUPT_DATA |
| Verify.Md5NeverMatches | op_verify.cc:44-45 | a recorded MD5 checksum never matches, since the computed checksum is always SHA-1 |

## Left out

- Digests and compression: SHA-256, MD5, SHA-1 and zlib deflate/inflate are function parameters. Nothing about them is assumed except, in `AppendThenLoad`, that inflate undoes deflate.
- Error texts of failed I/O: `WRITE_ERROR` (src/index.rs:185, which appends the I/O error), `READ_ERROR` followed by the file name (src/index.rs:137, which is the I/O error's own text) and "unable to read file: " followed by the path in `ChecksumFunction.ComputeFileSha256` and `ChecksumFunction.ComputeFileMd5` (src/checksum.rs:60 and :78) stand in for the operating system's message, which the model does not have.
- File system, walk and clock: `read_dir` (its result and each entry, errors included), `WalkDir`, `canonicalize`, file reads, how a file write ends (`WriteOutcome`), whether the index path exists, and the time of a new snapshot are inputs. Paths are `/`-separated text, so `has_root` is a leading `/`. The conversion of `SystemTime` to microseconds (src/index_scan.rs:48-52) is part of the metadata input.
- `from_utf8_lossy` (src/index.rs:275): the snapshot text is a string of characters already.
- The `regex` crate: the file-name pattern is written out as a parser.
- IndexDirectory.ParseFilename: `\d` in the pattern (src/index.rs:19-20) also matches non-ASCII Unicode digits, which then fail `parse::<i64>` with "internal error"; the model accepts ASCII digits only, so such a name gets "invalid file in index directory" instead. Only the message differs.
- IndexDirectory.ParseFilename and Acknowledge.PathspecsFrom: the `{:?}` rendering of a name (src/index.rs:81, src/op_acknowledge.rs:64) is the name in double quotes; Rust's escaping of quotes, backslashes and control characters inside it is not modelled. A name that is not Unicode is given as its rendering (`DirEntry.NotUnicode`). The same holds for the quoted line in the errors of `Snapshot.IndexSnapshot.Decode` (src/index.rs:304, :316) and the quoted path in the checksum error of `IndexDirectory.IndexDirectory.Load` (src/index.rs:151).
- Terminal output, progress and debug printing (src/prompt.rs, `print_debug`), and argument parsing (`getopts`, `getopt_long` in cmd_search.cc:141-171 and op_verify.cc:92-144) are not modelled.
- `IndexDirectory::create` and `list` (src/index.rs:103-127) are not modelled; they are outside the core.
- `ack` loads the latest snapshot and runs `scan_metadata` before `Commit`. Those steps (src/op_acknowledge.rs:78-95) are the modelled `Latest`, `Load` and `ScanMetadata`, but they are not chained in one method.
- The `match` at src/op_acknowledge.rs:116-131 has no arm for `IndexDiff::MetadataModified` (src/index_diff.rs:19-21) and no wildcard, so rustc rejects it as non-exhaustive (E0004) and the file does not build as written. The model reads the missing arm as a no-op (`ApplyDiffAsWritten`, see Findings) and commits with the evidently intended arm.
- The `append` call at src/op_acknowledge.rs:134 passes one argument against the two-argument signature at src/index.rs:157-160. The model passes the new snapshot's timestamp as an input.
- Acknowledge.ValidatePathspecs: the canonical data root and each canonicalised pathspec are inputs (`Result` values). A `strip_prefix` failure after a successful `starts_with` cannot happen, which `Paths.StripPrefix` shows.
- Snapshot.IndexSnapshot.Encode: the `panic!("missing checksum")` at src/index.rs:254-256 is modelled as an `Err` result.
- Snapshot.IndexSnapshot.TotalSizeBytes: the u64 fold's overflow is modelled as wrap-around modulo 2^64, as in a release build. A debug build panics instead.
- Snapshot.IndexSnapshot.Decode: every `parse::<i64>` error of a `#timestamp` line is one message, "invalid digit found in string". Rust distinguishes empty and overflowing input.
- IndexDirectory.ParseFilename: the "internal error" for a timestamp that overflows i64 carries one fixed message.
- IndexScan.ScanMetadata: the walk is a list of entries. Each entry is a walk error, or metadata, a canonical path and a UTF-8 flag, each of which can fail. `strip_prefix` is modelled by `Paths.StripPrefix`.
- IndexScan.ScanChecksums: the source's "invalid path" branch (src/index_scan.rs:98-101) is kept in the model, and `ChecksumsFromOk` shows it never fires. The joined path `data_path.join(file_path)` is the key of the file map.
- Verify.OpVerify: `root_path / record.path` is the key `record.path` of the file map. `std::filesystem::exists` is true only for files in that map, so a directory at a record's path is not modelled.
- Verify.OpVerify: a read error inside `checksum_compute_sha1` after the existence check (the `bad()` branch at checksum.cc:143-150) is not modelled; files in the map are always readable.
- Verify.VerifyResult: the `size_t` counters are unbounded `nat`s; wrap-around after 2^64 records is not modelled.
- Verify.RecordChecksums: the computed checksum is always SHA-1 (op_verify.cc:44), as the code does. test/test-verify-corrupt/test.cc:24 expects the MD5 records to pass, which the code cannot do; `Md5NeverMatches` states what the code does.
- test/test-verify/test.cc:22 expects all four files, `md5.txt` among them, to verify; an index record with only an MD5 checksum cannot pass (`Md5NeverMatches`). The index file of that test is not part of this model.
- test/test-index-load/test.cc:15-23 compares `checksums[k].value.data` with the hex text, while checksum.cc:61-74 decodes the text into raw bytes. The model follows the code (`ChecksumCodec.ReadValue`, `DecodeValue`).
- The `count_omit` counter and `OMITTED` messages that test/test-verify-omitted expects do not exist in op_verify.h. They are not modelled.
- checksum.cc:66-70 writes into an empty `std::string`. A checksum value is modelled as a byte sequence of exactly `checksum_size` bytes.
- checksum.h declares `checksum_compute_sha1` as returning `std::string`, while checksum.cc returns a `Checksum`. In cmd_search.cc the result is used as the raw 20-byte digest, and in op_verify.cc as a `Checksum`. The model uses both views of the same SHA-1 parameter.
- `IndexPathSet` is not declared in index.h. It is modelled as a set of paths.
- IndexRead.ReadChecksum: the libstdc++ exception texts ("stoull", "basic_string::substr") are used as the error messages of `std::stoull` and `substr`. The position and size that libstdc++ appends to the `substr` message are left out.
- IndexRead.ReadRecords and Search.IndexLoad: a `getline` read error (`bad()`) is not modelled. The file is its list of lines, and an unopenable file is `None`.

## Findings

| source | as written | input that shows it | evidently intended | confidence | as-written member | corrected member |
|---|---|---|---|---|---|---|
| src/op_acknowledge.rs:116-132 | the `match` of the commit loop has no arm for `IndexDiff::MetadataModified` and no wildcard, so rustc rejects it (E0004, non-exhaustive patterns) and the file does not build; read with the missing arm as a no-op, an acknowledged metadata change leaves the stored record as it was | target `{"f": size 1, mtime 1, checksum "c"}`, actual `{"f": size 1, mtime 2}`: `ack` reports `MetadataModified(f)`, commits, and the next diff reports `MetadataModified(f)` again | a metadata change is recorded by taking the current record, like `Modified` | not executed | Acknowledge.MetadataChangeNeverAcknowledged | Acknowledge.AcknowledgeAllClearsDiff |
