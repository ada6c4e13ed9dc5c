/** src/index_scan.rs: which paths a scan looks at (`check_excludes`), the
    metadata scan over a directory walk, and the checksum scan over the
    records of a snapshot. The walk, file metadata, path canonicalisation
    and file contents are inputs. */
module IndexScan {
  import opened Wrappers
  import opened Text
  import opened Paths
  import opened ChecksumFunction
  import opened Snapshot

  /** `ScanOptions`. */
  datatype ScanOptions = ScanOptions(excludePaths: seq<string>, exclusivePaths: Option<seq<string>>)

  /** `check_excludes`: whether a scan looks at `path`. */
  function CheckExcludes(path: string, opts: ScanOptions): bool {
    if UnderAny(path, opts.excludePaths) then false
    else if opts.exclusivePaths.Some? && !UnderAny(path, opts.exclusivePaths.value) then false
    else true
  }

  /** A path is scanned exactly when it is under no exclude prefix and,
      with an exclusive list, under one of its entries. */
  lemma CheckExcludesSpec(path: string, opts: ScanOptions)
    ensures CheckExcludes(path, opts) <==>
      (forall i :: 0 <= i < |opts.excludePaths| ==> !StartsWith(path, opts.excludePaths[i]))
      && (opts.exclusivePaths.Some? ==>
            exists i :: 0 <= i < |opts.exclusivePaths.value| && StartsWith(path, opts.exclusivePaths.value[i]))
  {
    UnderAnyExists(path, opts.excludePaths);
    UnderAnyExists(path, opts.exclusivePaths.GetOr([]));
  }

  /** An exclude prefix wins over the exclusive list. */
  lemma ExcludeWins(path: string, opts: ScanOptions, i: nat)
    requires i < |opts.excludePaths| && StartsWith(path, opts.excludePaths[i])
    ensures !CheckExcludes(path, opts)
  {
    CheckExcludesSpec(path, opts);
  }

  /** Without an exclusive list, only the exclude prefixes matter. */
  lemma NoExclusiveList(path: string, excludes: seq<string>)
    ensures CheckExcludes(path, ScanOptions(excludes, None)) <==> !UnderAny(path, excludes)
  {
    UnderAnyExists(path, excludes);
  }

  /** An exclusive list with no entries excludes everything. */
  lemma EmptyExclusiveList(path: string, excludes: seq<string>)
    ensures !CheckExcludes(path, ScanOptions(excludes, Some([])))
  {
  }

  /** Prefixes are compared by whole components. */
  lemma ExcludesWholeComponents()
    ensures CheckExcludes("a/bc", ScanOptions(["a/b"], None))
    ensures !CheckExcludes("a/b/c", ScanOptions(["a/b"], None))
  {
    SiblingNotUnder();
    ChildUnder();
  }

  // ---------------------------------------------------------------------
  // scan_metadata

  /** What a walk entry's metadata says: whether it is a regular file, its
      length and its modification time in microseconds (`None` where the
      platform gives none). */
  datatype Metadata = Metadata(isFile: bool, lenBytes: u64, modifiedUs: Option<i64>)

  /** One entry of the walk: its metadata, its canonical path, and whether
      that path is valid UTF-8. A failed walk step is an `Err` entry. */
  datatype WalkEntry = WalkEntry(metadata: Result<Metadata>, canonical: Result<string>, validUtf8: bool)

  /** The text of `StripPrefixError`. */
  const PREFIX_NOT_FOUND := "prefix not found"
  const INVALID_PATH := "invalid path"

  /** What one walk entry does to the scan. */
  datatype Visit = Abort(msg: string) | Skip | Record(path: string, info: FileInfo)

  /** The per-entry rule of `scan_metadata`: any failure aborts, except that
      entries which are not regular files are skipped before their path is
      canonicalised; excluded files are skipped; every other file gets a
      record with its size and time and no checksum. */
  function VisitOf(root: string, opts: ScanOptions, entry: Result<WalkEntry>): Visit {
    match entry
    case Err(e) => Abort(e)
    case Ok(WalkEntry(metadata, canonical, validUtf8)) =>
      match metadata
      case Err(e) => Abort(e)
      case Ok(meta) =>
        if !meta.isFile then Skip
        else match canonical
          case Err(e) => Abort(e)
          case Ok(c) =>
            match StripPrefix(c, root)
            case None => Abort(PREFIX_NOT_FOUND)
            case Some(rel) =>
              if !validUtf8 then Abort(INVALID_PATH)
              else if !CheckExcludes(rel, opts) then Skip
              else Record(rel, FileInfo(meta.lenBytes, meta.modifiedUs, None))
  }

  /** The records after the first entries of the walk. */
  function MetadataFrom(root: string, opts: ScanOptions, files: FileMap, walk: seq<Result<WalkEntry>>): Result<FileMap> {
    if walk == [] then Ok(files)
    else
      match MetadataFrom(root, opts, files, walk[..|walk| - 1])
      case Err(e) => Err(e)
      case Ok(acc) =>
        match VisitOf(root, opts, walk[|walk| - 1])
        case Abort(e) => Err(e)
        case Skip => Ok(acc)
        case Record(path, info) => Ok(acc[path := info])
  }

  /** `scan_metadata`: the data directory's canonical path, then the walk. */
  function ScanMetadataSpec(dataPath: Result<string>, opts: ScanOptions, files: FileMap, walk: seq<Result<WalkEntry>>): Result<FileMap> {
    match dataPath
    case Err(e) => Err(e)
    case Ok(root) => MetadataFrom(root, opts, files, walk)
  }

  lemma {:induction false} MetadataSticky(root: string, opts: ScanOptions, files: FileMap, walk: seq<Result<WalkEntry>>, rest: seq<Result<WalkEntry>>)
    requires MetadataFrom(root, opts, files, walk).Err?
    ensures MetadataFrom(root, opts, files, walk + rest) == MetadataFrom(root, opts, files, walk)
    decreases |rest|
  {
    if rest != [] {
      var init := rest[..|rest| - 1];
      MetadataSticky(root, opts, files, walk, init);
      assert (walk + rest)[..|walk + rest| - 1] == walk + init;
    } else {
      assert walk + rest == walk;
    }
  }

  /** A failed prefix of the walk decides the whole scan. */
  lemma MetadataFailsAt(root: string, opts: ScanOptions, files: FileMap, walk: seq<Result<WalkEntry>>, n: nat)
    requires n <= |walk| && MetadataFrom(root, opts, files, walk[..n]).Err?
    ensures MetadataFrom(root, opts, files, walk) == MetadataFrom(root, opts, files, walk[..n])
  {
    MetadataSticky(root, opts, files, walk[..n], walk[n..]);
    assert walk[..n] + walk[n..] == walk;
  }

  /** The record the walk leaves for `p`: the one of the last entry that
      records `p`, if any. */
  function LastRecord(root: string, opts: ScanOptions, walk: seq<Result<WalkEntry>>, p: string): Option<FileInfo> {
    if walk == [] then None
    else
      var v := VisitOf(root, opts, walk[|walk| - 1]);
      if v.Record? && v.path == p then Some(v.info)
      else LastRecord(root, opts, walk[..|walk| - 1], p)
  }

  /** No entry of the walk aborts the scan. */
  predicate NoAbort(root: string, opts: ScanOptions, walk: seq<Result<WalkEntry>>) {
    forall i :: 0 <= i < |walk| ==> !VisitOf(root, opts, walk[i]).Abort?
  }

  lemma NoAbortInit(root: string, opts: ScanOptions, walk: seq<Result<WalkEntry>>)
    requires walk != [] && NoAbort(root, opts, walk)
    ensures NoAbort(root, opts, walk[..|walk| - 1])
  {
    var init := walk[..|walk| - 1];
    forall i | 0 <= i < |init| ensures !VisitOf(root, opts, init[i]).Abort? {
      assert init[i] == walk[i];
    }
  }

  lemma NoAbortExtend(root: string, opts: ScanOptions, walk: seq<Result<WalkEntry>>)
    requires walk != [] && NoAbort(root, opts, walk[..|walk| - 1])
    requires !VisitOf(root, opts, walk[|walk| - 1]).Abort?
    ensures NoAbort(root, opts, walk)
  {
    var n := |walk| - 1;
    var init := walk[..n];
    forall i | 0 <= i < |walk| ensures !VisitOf(root, opts, walk[i]).Abort? {
      if i < n {
        assert walk[i] == init[i];
      }
    }
  }

  /** The metadata scan succeeds exactly when no entry aborts it. */
  lemma {:induction false} MetadataFromOk(root: string, opts: ScanOptions, files: FileMap, walk: seq<Result<WalkEntry>>)
    ensures MetadataFrom(root, opts, files, walk).Ok? <==> NoAbort(root, opts, walk)
    decreases |walk|
  {
    if walk != [] {
      var init := walk[..|walk| - 1];
      var last := walk[|walk| - 1];
      MetadataFromOk(root, opts, files, init);
      if NoAbort(root, opts, walk) {
        NoAbortInit(root, opts, walk);
      } else if MetadataFrom(root, opts, files, init).Ok? && !VisitOf(root, opts, last).Abort? {
        NoAbortExtend(root, opts, walk);
      }
    }
  }

  /** A successful metadata scan gives every path recorded by the walk its
      last record, and keeps every other path as it was. */
  lemma {:induction false} MetadataFromRecords(root: string, opts: ScanOptions, files: FileMap, walk: seq<Result<WalkEntry>>, p: string)
    requires MetadataFrom(root, opts, files, walk).Ok?
    ensures var m := MetadataFrom(root, opts, files, walk).value;
      match LastRecord(root, opts, walk, p)
      case Some(info) => p in m && m[p] == info
      case None => (p in m <==> p in files) && (p in files ==> m[p] == files[p])
    decreases |walk|
  {
    if walk != [] {
      MetadataFromRecords(root, opts, files, walk[..|walk| - 1], p);
    }
  }

  /** A scan error leaves the message of the entry that caused it. */
  lemma {:induction false} MetadataFromError(root: string, opts: ScanOptions, files: FileMap, walk: seq<Result<WalkEntry>>)
    requires MetadataFrom(root, opts, files, walk).Err?
    ensures exists i :: 0 <= i < |walk| && VisitOf(root, opts, walk[i]) == Abort(MetadataFrom(root, opts, files, walk).msg)
    decreases |walk|
  {
    var init := walk[..|walk| - 1];
    if MetadataFrom(root, opts, files, init).Err? {
      MetadataFromError(root, opts, files, init);
      var i :| 0 <= i < |init| && VisitOf(root, opts, init[i]) == Abort(MetadataFrom(root, opts, files, init).msg);
      assert init[i] == walk[i];
    } else {
      assert VisitOf(root, opts, walk[|walk| - 1]) == Abort(MetadataFrom(root, opts, files, walk).msg);
    }
  }

  /** Directories and other non-files never change the records. */
  lemma NonFileSkipped(root: string, opts: ScanOptions, files: FileMap, walk: seq<Result<WalkEntry>>, e: WalkEntry)
    requires e.metadata.Ok? && !e.metadata.value.isFile
    ensures MetadataFrom(root, opts, files, walk + [Ok(e)]) == MetadataFrom(root, opts, files, walk)
  {
    assert (walk + [Ok(e)])[..|walk|] == walk;
  }

  /** One more entry of the walk, as the loop of `scan_metadata` takes it. */
  lemma MetadataStep(root: string, opts: ScanOptions, files: FileMap, walk: seq<Result<WalkEntry>>, i: nat)
    requires i < |walk|
    ensures MetadataFrom(root, opts, files, walk[..i + 1]) ==
      match MetadataFrom(root, opts, files, walk[..i])
      case Err(e) => Err(e)
      case Ok(acc) =>
        match VisitOf(root, opts, walk[i])
        case Abort(e) => Err(e)
        case Skip => Ok(acc)
        case Record(path, info) => Ok(acc[path := info])
  {
    assert walk[..i + 1][..i] == walk[..i];
  }

  /** `scan_metadata`, updating `index` in place. */
  method ScanMetadata(dataPath: Result<string>, walk: seq<Result<WalkEntry>>, index: IndexSnapshot, opts: ScanOptions)
    returns (r: Result<IndexSnapshot>)
    modifies index
    ensures ScanMetadataSpec(dataPath, opts, old(index.files), walk).Err? ==>
      r == Err(ScanMetadataSpec(dataPath, opts, old(index.files), walk).msg)
    ensures ScanMetadataSpec(dataPath, opts, old(index.files), walk).Ok? ==>
      r == Ok(index) && index.files == ScanMetadataSpec(dataPath, opts, old(index.files), walk).value
    ensures index.checksumFunction == old(index.checksumFunction) && index.message == old(index.message)
  {
    if dataPath.Err? {
      return Err(dataPath.msg);
    }
    var root := dataPath.value;
    ghost var files0 := index.files;
    for i := 0 to |walk|
      invariant MetadataFrom(root, opts, files0, walk[..i]) == Ok(index.files)
      invariant index.checksumFunction == old(index.checksumFunction) && index.message == old(index.message)
    {
      MetadataStep(root, opts, files0, walk, i);
      var visit := VisitEntry(root, opts, walk[i]);
      match visit {
        case Abort(e) =>
          MetadataFailsAt(root, opts, files0, walk, i + 1);
          return Err(e);
        case Skip =>
        case Record(path, info) =>
          index.Update(path, info);
      }
    }
    assert walk[..|walk|] == walk;
    return Ok(index);
  }

  /** The body of the walk loop for one entry, with its early exits. */
  method VisitEntry(root: string, opts: ScanOptions, entry: Result<WalkEntry>) returns (v: Visit)
    ensures v == VisitOf(root, opts, entry)
  {
    if entry.Err? {
      return Abort(entry.msg);
    }
    var e := entry.value;
    if e.metadata.Err? {
      return Abort(e.metadata.msg);
    }
    var meta := e.metadata.value;
    if !meta.isFile {
      return Skip;
    }
    if e.canonical.Err? {
      return Abort(e.canonical.msg);
    }
    var rel := StripPrefix(e.canonical.value, root);
    if rel.None? {
      return Abort(PREFIX_NOT_FOUND);
    }
    if !e.validUtf8 {
      return Abort(INVALID_PATH);
    }
    if !CheckExcludes(rel.value, opts) {
      return Skip;
    }
    return Record(rel.value, FileInfo(meta.lenBytes, meta.modifiedUs, None));
  }

  // ---------------------------------------------------------------------
  // scan_checksums

  /** The record of `p` once its checksum has been computed. */
  function WithChecksum(info: FileInfo, checksum: string): FileInfo {
    info.(checksum := Some(checksum))
  }

  /** The records after the checksum scan has visited the paths `ks` in
      turn; a path that is no longer a key fails as the program does. */
  function ChecksumsFrom(d: Digests, f: ChecksumFunction, fs: Files, opts: ScanOptions, files: FileMap, ks: seq<string>): Result<FileMap> {
    if ks == [] then Ok(files)
    else
      match ChecksumsFrom(d, f, fs, opts, files, ks[..|ks| - 1])
      case Err(e) => Err(e)
      case Ok(acc) =>
        var p := ks[|ks| - 1];
        if !CheckExcludes(p, opts) then Ok(acc)
        else if p !in acc then Err(INVALID_PATH)
        else
          match ComputeFile(d, f, fs, p)
          case Err(e) => Err(e)
          case Ok(c) => Ok(acc[p := WithChecksum(acc[p], c)])
  }

  /** `scan_checksums` over the records in ascending path order. */
  ghost function ScanChecksumsSpec(d: Digests, f: ChecksumFunction, fs: Files, opts: ScanOptions, files: FileMap): Result<FileMap> {
    ChecksumsFrom(d, f, fs, opts, files, SortedKeys(files.Keys))
  }

  lemma {:induction false} ChecksumsSticky(d: Digests, f: ChecksumFunction, fs: Files, opts: ScanOptions, files: FileMap, ks: seq<string>, rest: seq<string>)
    requires ChecksumsFrom(d, f, fs, opts, files, ks).Err?
    ensures ChecksumsFrom(d, f, fs, opts, files, ks + rest) == ChecksumsFrom(d, f, fs, opts, files, ks)
    decreases |rest|
  {
    if rest != [] {
      var init := rest[..|rest| - 1];
      ChecksumsSticky(d, f, fs, opts, files, ks, init);
      assert (ks + rest)[..|ks + rest| - 1] == ks + init;
    } else {
      assert ks + rest == ks;
    }
  }

  /** One more path, as the loop of `scan_checksums` takes it. */
  lemma ChecksumsStep(d: Digests, f: ChecksumFunction, fs: Files, opts: ScanOptions, files: FileMap, ks: seq<string>, i: nat)
    requires i < |ks|
    ensures ChecksumsFrom(d, f, fs, opts, files, ks[..i + 1]) ==
      match ChecksumsFrom(d, f, fs, opts, files, ks[..i])
      case Err(e) => Err(e)
      case Ok(acc) =>
        if !CheckExcludes(ks[i], opts) then Ok(acc)
        else if ks[i] !in acc then Err(INVALID_PATH)
        else
          match ComputeFile(d, f, fs, ks[i])
          case Err(e) => Err(e)
          case Ok(c) => Ok(acc[ks[i] := WithChecksum(acc[ks[i]], c)])
  {
    assert ks[..i + 1][..i] == ks[..i];
  }

  /** A failed prefix of the paths decides the whole checksum scan. */
  lemma ChecksumsFailAt(d: Digests, f: ChecksumFunction, fs: Files, opts: ScanOptions, files: FileMap, ks: seq<string>, n: nat)
    requires n <= |ks| && ChecksumsFrom(d, f, fs, opts, files, ks[..n]).Err?
    ensures ChecksumsFrom(d, f, fs, opts, files, ks) == ChecksumsFrom(d, f, fs, opts, files, ks[..n])
  {
    ChecksumsSticky(d, f, fs, opts, files, ks[..n], ks[n..]);
    assert ks[..n] + ks[n..] == ks;
  }

  /** The records once every included path among `ks` has its checksum. */
  function Scanned(d: Digests, f: ChecksumFunction, fs: Files, opts: ScanOptions, files: FileMap, ks: seq<string>): FileMap {
    map p | p in files :: if p in ks && CheckExcludes(p, opts) && p in fs then WithChecksum(files[p], Compute(d, f, fs[p])) else files[p]
  }

  /** Every included path among `ks` names a readable file. */
  predicate AllReadable(fs: Files, opts: ScanOptions, ks: seq<string>) {
    forall i :: 0 <= i < |ks| && CheckExcludes(ks[i], opts) ==> ks[i] in fs
  }

  lemma ReadableInit(fs: Files, opts: ScanOptions, ks: seq<string>)
    requires ks != [] && AllReadable(fs, opts, ks)
    ensures AllReadable(fs, opts, ks[..|ks| - 1])
  {
    var init := ks[..|ks| - 1];
    forall i | 0 <= i < |init| && CheckExcludes(init[i], opts) ensures init[i] in fs {
      assert init[i] == ks[i];
    }
  }

  lemma ReadableExtend(fs: Files, opts: ScanOptions, ks: seq<string>)
    requires ks != [] && AllReadable(fs, opts, ks[..|ks| - 1])
    requires CheckExcludes(ks[|ks| - 1], opts) ==> ks[|ks| - 1] in fs
    ensures AllReadable(fs, opts, ks)
  {
    var n := |ks| - 1;
    var init := ks[..n];
    forall i | 0 <= i < |ks| && CheckExcludes(ks[i], opts) ensures ks[i] in fs {
      if i < n {
        assert ks[i] == init[i];
      }
    }
  }

  lemma ReadableLast(fs: Files, opts: ScanOptions, ks: seq<string>)
    requires ks != []
    ensures AllReadable(fs, opts, ks) <==>
      AllReadable(fs, opts, ks[..|ks| - 1]) && (CheckExcludes(ks[|ks| - 1], opts) ==> ks[|ks| - 1] in fs)
  {
    if AllReadable(fs, opts, ks) {
      ReadableInit(fs, opts, ks);
    }
    if AllReadable(fs, opts, ks[..|ks| - 1]) && (CheckExcludes(ks[|ks| - 1], opts) ==> ks[|ks| - 1] in fs) {
      ReadableExtend(fs, opts, ks);
    }
  }

  /** The checksum scan succeeds exactly when every included path can be read. */
  lemma {:induction false} ChecksumsFromOk(d: Digests, f: ChecksumFunction, fs: Files, opts: ScanOptions, files: FileMap, ks: seq<string>)
    requires forall i :: 0 <= i < |ks| ==> ks[i] in files
    ensures ChecksumsFrom(d, f, fs, opts, files, ks).Ok? <==> AllReadable(fs, opts, ks)
    decreases |ks|
  {
    if ks != [] {
      var init := ks[..|ks| - 1];
      var p := ks[|ks| - 1];
      assert p in files;
      assert forall i :: 0 <= i < |init| ==> init[i] == ks[i];
      ChecksumsFromOk(d, f, fs, opts, files, init);
      ChecksumsFromValue(d, f, fs, opts, files, init);
      ComputeFileIsCompute(d, f, fs, p);
      ReadableLast(fs, opts, ks);
    }
  }

  /** A key other than the last visited one has the same record after and before that visit. */
  lemma ScannedOther(d: Digests, f: ChecksumFunction, fs: Files, opts: ScanOptions, files: FileMap, ks: seq<string>, q: string)
    requires ks != [] && q in files && q != ks[|ks| - 1]
    ensures Scanned(d, f, fs, opts, files, ks)[q] == Scanned(d, f, fs, opts, files, ks[..|ks| - 1])[q]
  {
    var init := ks[..|ks| - 1];
    if q in ks {
      var i :| 0 <= i < |ks| && ks[i] == q;
      assert i < |init| && init[i] == q;
    }
    assert q in init ==> q in ks;
  }

  /** The last visited key has its checksum exactly when it is included and readable. */
  lemma ScannedLast(d: Digests, f: ChecksumFunction, fs: Files, opts: ScanOptions, files: FileMap, ks: seq<string>)
    requires ks != [] && ks[|ks| - 1] in files
    ensures var p := ks[|ks| - 1];
      Scanned(d, f, fs, opts, files, ks)[p] ==
        if CheckExcludes(p, opts) && p in fs then WithChecksum(files[p], Compute(d, f, fs[p])) else files[p]
  {
  }

  /** A successful checksum scan fills in exactly the included paths. */
  lemma {:induction false} ChecksumsFromValue(d: Digests, f: ChecksumFunction, fs: Files, opts: ScanOptions, files: FileMap, ks: seq<string>)
    requires forall i :: 0 <= i < |ks| ==> ks[i] in files
    ensures ChecksumsFrom(d, f, fs, opts, files, ks).Ok? ==>
      ChecksumsFrom(d, f, fs, opts, files, ks).value == Scanned(d, f, fs, opts, files, ks)
    decreases |ks|
  {
    if ks != [] && ChecksumsFrom(d, f, fs, opts, files, ks).Ok? {
      var init := ks[..|ks| - 1];
      var p := ks[|ks| - 1];
      assert p in files;
      assert forall i :: 0 <= i < |init| ==> init[i] == ks[i];
      ChecksumsFromValue(d, f, fs, opts, files, init);
      var r := ChecksumsFrom(d, f, fs, opts, files, ks).value;
      var acc := ChecksumsFrom(d, f, fs, opts, files, init).value;
      var sc := Scanned(d, f, fs, opts, files, ks);
      assert acc == Scanned(d, f, fs, opts, files, init);
      ComputeFileIsCompute(d, f, fs, p);
      ScannedLast(d, f, fs, opts, files, ks);
      assert r.Keys == acc.Keys;
      forall q | q in files ensures r[q] == sc[q] {
        if q != p {
          ScannedOther(d, f, fs, opts, files, ks, q);
        }
      }
    }
  }

  /** A failed checksum scan reports the error of an unreadable included path. */
  lemma {:induction false} ChecksumsFromError(d: Digests, f: ChecksumFunction, fs: Files, opts: ScanOptions, files: FileMap, ks: seq<string>)
    requires forall i :: 0 <= i < |ks| ==> ks[i] in files
    requires ChecksumsFrom(d, f, fs, opts, files, ks).Err?
    ensures exists i :: (0 <= i < |ks| && CheckExcludes(ks[i], opts) && ks[i] !in fs
      && ChecksumsFrom(d, f, fs, opts, files, ks).msg == ComputeFile(d, f, fs, ks[i]).msg)
    decreases |ks|
  {
    var init := ks[..|ks| - 1];
    var p := ks[|ks| - 1];
    ChecksumsFromValue(d, f, fs, opts, files, init);
    if ChecksumsFrom(d, f, fs, opts, files, init).Err? {
      ChecksumsFromError(d, f, fs, opts, files, init);
      var i :| 0 <= i < |init| && CheckExcludes(init[i], opts) && init[i] !in fs
        && ChecksumsFrom(d, f, fs, opts, files, init).msg == ComputeFile(d, f, fs, init[i]).msg;
      assert ks[i] == init[i];
    } else {
      ComputeFileIsCompute(d, f, fs, p);
      assert CheckExcludes(ks[|ks| - 1], opts) && p !in fs;
    }
  }

  /** The checksum scan keeps every key; it fails exactly when an included
      file cannot be read, with that file's error; otherwise every included
      record gets the checksum of its file with size and time preserved,
      and every excluded record is left as it was. */
  lemma ScanChecksumsProperties(d: Digests, f: ChecksumFunction, fs: Files, opts: ScanOptions, files: FileMap)
    ensures ScanChecksumsSpec(d, f, fs, opts, files).Ok? <==>
      forall p :: p in files && CheckExcludes(p, opts) ==> p in fs
    ensures ScanChecksumsSpec(d, f, fs, opts, files).Ok? ==>
      var m := ScanChecksumsSpec(d, f, fs, opts, files).value;
      m.Keys == files.Keys
      && (forall p :: p in files && !CheckExcludes(p, opts) ==> m[p] == files[p])
      && (forall p :: p in files && CheckExcludes(p, opts) ==>
            p in fs && m[p] == FileInfo(files[p].sizeBytes, files[p].modifiedTimestampUs, Some(Compute(d, f, fs[p]))))
    ensures ScanChecksumsSpec(d, f, fs, opts, files).Err? ==>
      exists p :: p in files && CheckExcludes(p, opts) && p !in fs
        && ScanChecksumsSpec(d, f, fs, opts, files).msg == ComputeFile(d, f, fs, p).msg
  {
    var ks := SortedKeys(files.Keys);
    SortedKeysSpec(files.Keys);
    ChecksumsFromOk(d, f, fs, opts, files, ks);
    ChecksumsFromValue(d, f, fs, opts, files, ks);
    if ScanChecksumsSpec(d, f, fs, opts, files).Err? {
      ChecksumsFromError(d, f, fs, opts, files, ks);
    }
    if ScanChecksumsSpec(d, f, fs, opts, files).Ok? {
      assert forall p :: p in files && CheckExcludes(p, opts) ==> p in fs by {
        forall p | p in files && CheckExcludes(p, opts) ensures p in fs {
          var i :| 0 <= i < |ks| && ks[i] == p;
        }
      }
    }
  }

  /** A successful checksum scan keeps exactly the keys it was given. */
  lemma ScanChecksumsKeys(d: Digests, f: ChecksumFunction, fs: Files, opts: ScanOptions, files: FileMap)
    ensures ScanChecksumsSpec(d, f, fs, opts, files).Ok? ==> ScanChecksumsSpec(d, f, fs, opts, files).value.Keys == files.Keys
  {
    ScanChecksumsProperties(d, f, fs, opts, files);
  }

  /** `scan_checksums`, updating `index` in place. */
  method ScanChecksums(d: Digests, fs: Files, index: IndexSnapshot, opts: ScanOptions) returns (r: Result<IndexSnapshot>)
    modifies index
    ensures ScanChecksumsSpec(d, old(index.checksumFunction), fs, opts, old(index.files)).Err? ==>
      r == Err(ScanChecksumsSpec(d, old(index.checksumFunction), fs, opts, old(index.files)).msg)
    ensures ScanChecksumsSpec(d, old(index.checksumFunction), fs, opts, old(index.files)).Ok? ==>
      r == Ok(index) && index.files == ScanChecksumsSpec(d, old(index.checksumFunction), fs, opts, old(index.files)).value
    ensures index.checksumFunction == old(index.checksumFunction) && index.message == old(index.message)
  {
    ghost var files0 := index.files;
    var paths := index.List();
    for i := 0 to |paths|
      invariant ChecksumsFrom(d, index.checksumFunction, fs, opts, files0, paths[..i]) == Ok(index.files)
      invariant index.checksumFunction == old(index.checksumFunction) && index.message == old(index.message)
    {
      var p := paths[i];
      ChecksumsStep(d, index.checksumFunction, fs, opts, files0, paths, i);
      if !CheckExcludes(p, opts) {
        continue;
      }
      var info := index.Get(p);
      if info.None? {
        ChecksumsFailAt(d, index.checksumFunction, fs, opts, files0, paths, i + 1);
        return Err(INVALID_PATH);
      }
      var c := ComputeFile(d, index.checksumFunction, fs, p);
      if c.Err? {
        ChecksumsFailAt(d, index.checksumFunction, fs, opts, files0, paths, i + 1);
        return Err(c.msg);
      }
      index.Update(p, WithChecksum(info.value, c.value));
    }
    assert paths[..|paths|] == paths;
    return Ok(index);
  }
}
