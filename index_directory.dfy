/** `IndexDirectory` and `IndexReference` of src/index.rs: the directory of
    compressed snapshot files named `{timestamp}-{checksum}.idx`, listed
    newest first. The directory's files are a map from file name to bytes;
    compression and digests are parameters. */
module IndexDirectory {
  import opened Wrappers
  import opened Text
  import opened ChecksumFunction
  import opened Snapshot
  import opened SnapshotCodec

  datatype IndexReference = IndexReference(timestampUs: i64, checksum: string)

  /** What the program relies on but does not define: the digests, zlib
      compression of the encoded text and decompression back to text. */
  datatype Env = Env(digests: Digests, deflate: string -> seq<byte>, inflate: seq<byte> -> Result<string>)

  /** The error of `open` when the index path does not exist. */
  function IndexNotFound(indexPath: string): string {
    "index not found at '" + indexPath + "'; maybe you need to run 'fhistory init' first?"
  }
  const INVALID_FILE: string := "invalid file in index directory: "
  const INTERNAL_ERROR: string := "internal error: number too large to fit in target type"
  const NEWER_EXISTS: string := "a newer snapshot exists. did we go back into the future?"
  const WRITE_ERROR: string := "error while writing index"
  const READ_ERROR: string := "unable to read index file: "
  const CHECKSUM_MISMATCH: string := "Checksum mismatch for index file: "

  // ---------------------------------------------------------------------
  // File names

  /** `IndexReference::filename`. */
  function Filename(r: IndexReference): string {
    SignedDecimal(r.timestampUs as int) + "-" + r.checksum + ".idx"
  }

  predicate IsChecksumChar(c: char) {
    ('a' <= c <= 'z') || IsDigit(c)
  }

  predicate IsChecksumText(s: string) {
    |s| > 0 && forall i :: 0 <= i < |s| ==> IsChecksumChar(s[i])
  }

  /** The match of `^(\d+)-([a-z0-9]+)\.idx$` against a directory entry,
      then `parse::<i64>` of the timestamp: the digits run up to the first
      '-', and the rest is the checksum followed by ".idx". */
  function ParseFilename(name: string): Result<IndexReference> {
    var i := IndexOf(name, '-');
    if i == |name| then Err(INVALID_FILE + Quoted(name))
    else
      var digits := name[..i];
      var rest := name[i + 1..];
      if |digits| == 0 || !AllDigits(digits) || |rest| < 5 || rest[|rest| - 4..] != ".idx" then Err(INVALID_FILE + Quoted(name))
      else
        var checksum := rest[..|rest| - 4];
        if !IsChecksumText(checksum) then Err(INVALID_FILE + Quoted(name))
        else
          match ParseI64(digits)
          case None => Err(INTERNAL_ERROR)
          case Some(t) => Ok(IndexReference(t, checksum))
  }

  /** Every name of the form digits, '-', checksum, ".idx" matches; it
      parses unless the number does not fit in an i64. */
  lemma ParseWellFormedName(digits: string, checksum: string)
    requires |digits| > 0 && AllDigits(digits) && IsChecksumText(checksum)
    ensures ParseFilename(digits + "-" + checksum + ".idx")
      == if ParseI64(digits).Some? then Ok(IndexReference(ParseI64(digits).value, checksum)) else Err(INTERNAL_ERROR)
  {
    var rest := checksum + ".idx";
    var name := digits + "-" + checksum + ".idx";
    assert '-' !in digits by {
      forall j | 0 <= j < |digits| ensures digits[j] != '-' {
        assert IsDigit(digits[j]);
      }
    }
    assert name == digits + ['-'] + rest;
    IndexOfAfter(digits, '-', rest);
    assert name[..|digits|] == digits && name[|digits| + 1..] == rest;
    assert rest[|rest| - 4..] == ".idx" && rest[..|rest| - 4] == checksum;
  }

  /** Parsing a reference's file name gives the reference back, for every
      reference the program can write and read: a timestamp of at least 0
      and a checksum of lowercase letters and digits. */
  lemma FilenameRoundTrip(r: IndexReference)
    requires r.timestampUs >= 0 && IsChecksumText(r.checksum)
    ensures ParseFilename(Filename(r)) == Ok(r)
  {
    ParseWellFormedName(Decimal(r.timestampUs as nat), r.checksum);
    ParseI64SignedDecimal(r.timestampUs);
  }

  /** A name that parses carries a timestamp of at least 0 and a checksum
      of lowercase letters and digits, so writing the parsed reference's
      name and parsing it again gives the same reference (the name itself
      may differ by leading zeros). */
  lemma ParsedFilenameShape(name: string)
    requires ParseFilename(name).Ok?
    ensures ParseFilename(name).value.timestampUs >= 0
    ensures IsChecksumText(ParseFilename(name).value.checksum)
    ensures ParseFilename(Filename(ParseFilename(name).value)) == ParseFilename(name)
  {
    var i := IndexOf(name, '-');
    var digits := name[..i];
    assert digits[0] != '-' && digits[0] != '+' by {
      assert IsDigit(digits[0]);
    }
    FilenameRoundTrip(ParseFilename(name).value);
  }

  /** A leading zero is accepted, so two names can denote one reference. */
  lemma LeadingZeroAccepted()
    ensures ParseFilename("007-ab.idx") == Ok(IndexReference(7, "ab"))
    ensures Filename(IndexReference(7, "ab")) == "7-ab.idx"
  {
    LeadingZeroValue();
    ParseWellFormedName("007", "ab");
    assert "007" + "-" + "ab" + ".idx" == "007-ab.idx";
    SevenWritten();
  }

  lemma LeadingZeroValue()
    ensures ParseI64("007") == Some(7)
  {
    assert DigitsValue("007") == 7 by {
      assert "007"[..2] == "00" && "00"[..1] == "0" && "0"[..0] == "";
    }
  }

  lemma SevenWritten()
    ensures Filename(IndexReference(7, "ab")) == "7-ab.idx"
  {
    assert Decimal(7) == "7";
  }

  /** A negative timestamp is written as a name that `open` rejects. */
  lemma NegativeTimestampUnlisted(r: IndexReference)
    requires r.timestampUs < 0
    ensures ParseFilename(Filename(r)).Err?
  {
    assert Filename(r)[0] == '-';
    assert IndexOf(Filename(r), '-') == 0;
  }

  // ---------------------------------------------------------------------
  // Listing

  /** One item of the `read_dir` iterator: an entry with a Unicode name,
      an entry whose name `to_str()` rejects (carried as its `{:?}`
      rendering), or the I/O error of a failed entry. */
  datatype DirEntry = Named(name: string) | NotUnicode(debugName: string) | EntryError(msg: string)

  /** One turn of the listing loop: the entry's error, the refusal of a
      name that is not Unicode, or the parse of its name. */
  function ParseEntry(e: DirEntry): Result<IndexReference> {
    match e
    case Named(name) => ParseFilename(name)
    case NotUnicode(debugName) => Err(INVALID_FILE + debugName)
    case EntryError(msg) => Err(msg)
  }

  /** The references of the entries `names`, in order, or the error of the
      first entry that does not parse. */
  function ParseAll(names: seq<DirEntry>): Result<seq<IndexReference>> {
    if names == [] then Ok([])
    else
      match ParseAll(names[..|names| - 1])
      case Err(e) => Err(e)
      case Ok(refs) =>
        match ParseEntry(names[|names| - 1])
        case Err(e) => Err(e)
        case Ok(r) => Ok(refs + [r])
  }

  lemma {:induction false} ParseAllSpec(names: seq<DirEntry>)
    ensures ParseAll(names).Err? <==> exists i :: 0 <= i < |names| && ParseEntry(names[i]).Err?
    ensures ParseAll(names).Ok? ==>
      |ParseAll(names).value| == |names|
      && forall i :: 0 <= i < |names| ==> ParseEntry(names[i]) == Ok(ParseAll(names).value[i])
    decreases |names|
  {
    if names != [] {
      var init := names[..|names| - 1];
      var last := names[|names| - 1];
      ParseAllSpec(init);
      if ParseAll(init).Err? {
        var i :| 0 <= i < |init| && ParseEntry(init[i]).Err?;
        assert names[i] == init[i];
      } else if ParseEntry(last).Err? {
        assert ParseAll(names).Err?;
      } else {
        ParseAllNext(names, init, last);
      }
    }
  }

  /** One more parsed name after a successful prefix. */
  lemma ParseAllNext(names: seq<DirEntry>, init: seq<DirEntry>, last: DirEntry)
    requires names != [] && init == names[..|names| - 1] && last == names[|names| - 1]
    requires ParseAll(init).Ok? && ParseEntry(last).Ok?
    requires |ParseAll(init).value| == |init|
    requires forall i :: 0 <= i < |init| ==> ParseEntry(init[i]) == Ok(ParseAll(init).value[i])
    ensures ParseAll(names).Ok? && |ParseAll(names).value| == |names|
    ensures forall i :: 0 <= i < |names| ==> ParseEntry(names[i]) == Ok(ParseAll(names).value[i])
    ensures forall i :: 0 <= i < |names| ==> ParseEntry(names[i]).Ok?
  {
    var refs := ParseAll(init).value;
    var all := refs + [ParseEntry(last).value];
    assert ParseAll(names) == Ok(all);
    forall i | 0 <= i < |names| ensures ParseEntry(names[i]) == Ok(all[i]) {
      if i < |init| {
        assert names[i] == init[i] && all[i] == refs[i];
      } else {
        assert i == |names| - 1;
        assert names[i] == last;
      }
    }
  }

  /** Once an entry fails, the entries after it do not matter. */
  lemma {:induction false} ParseAllSticky(a: seq<DirEntry>, b: seq<DirEntry>)
    requires ParseAll(a).Err?
    ensures ParseAll(a + b) == ParseAll(a)
    decreases |b|
  {
    if b == [] {
      assert a + b == a;
    } else {
      assert (a + b)[..|a + b| - 1] == a + b[..|b| - 1];
      ParseAllSticky(a, b[..|b| - 1]);
    }
  }

  predicate NewestFirst(refs: seq<IndexReference>) {
    forall i, j :: 0 <= i < j < |refs| ==> refs[i].timestampUs >= refs[j].timestampUs
  }

  /** Places `r` after every reference at least as new, which keeps a
      sort by timestamp stable. */
  function Insert(r: IndexReference, refs: seq<IndexReference>): seq<IndexReference> {
    if refs == [] then [r]
    else if refs[0].timestampUs >= r.timestampUs then [refs[0]] + Insert(r, refs[1..])
    else [r] + refs
  }

  /** `index_files.sort_by(|a, b| b.timestamp_us.cmp(&a.timestamp_us))`: a
      stable sort, newest first. */
  function SortNewestFirst(refs: seq<IndexReference>): seq<IndexReference> {
    if refs == [] then []
    else Insert(refs[|refs| - 1], SortNewestFirst(refs[..|refs| - 1]))
  }

  /** Inserting adds exactly `r`. */
  lemma {:induction false} InsertMembers(r: IndexReference, refs: seq<IndexReference>)
    ensures multiset(Insert(r, refs)) == multiset(refs) + multiset{r}
    decreases |refs|
  {
    if refs != [] && refs[0].timestampUs >= r.timestampUs {
      var tail := refs[1..];
      assert refs == [refs[0]] + tail;
      InsertMembers(r, tail);
      assert Insert(r, refs) == [refs[0]] + Insert(r, tail);
    }
  }

  /** The front after an insertion is the older head, or `r`. */
  lemma InsertHead(r: IndexReference, refs: seq<IndexReference>)
    ensures |Insert(r, refs)| > 0
    ensures Insert(r, refs)[0] == (if refs != [] && refs[0].timestampUs >= r.timestampUs then refs[0] else r)
  {
  }

  /** A bound on every timestamp survives an insertion below it. */
  lemma InsertBounded(r: IndexReference, refs: seq<IndexReference>, t: i64)
    requires r.timestampUs <= t
    requires forall k :: 0 <= k < |refs| ==> refs[k].timestampUs <= t
    ensures forall j :: 0 <= j < |Insert(r, refs)| ==> Insert(r, refs)[j].timestampUs <= t
  {
    InsertMembers(r, refs);
    var ins := Insert(r, refs);
    forall j | 0 <= j < |ins| ensures ins[j].timestampUs <= t {
      assert ins[j] in multiset(ins);
      if ins[j] != r {
        assert ins[j] in multiset(refs);
      }
    }
  }

  /** Inserting into a newest-first list keeps it newest first. */
  lemma {:induction false} InsertSorted(r: IndexReference, refs: seq<IndexReference>)
    requires NewestFirst(refs)
    ensures NewestFirst(Insert(r, refs))
    decreases |refs|
  {
    if refs != [] && refs[0].timestampUs >= r.timestampUs {
      var tail := refs[1..];
      assert NewestFirst(tail);
      InsertSorted(r, tail);
      InsertBounded(r, tail, refs[0].timestampUs);
      assert Insert(r, refs) == [refs[0]] + Insert(r, tail);
    } else if refs != [] {
      assert Insert(r, refs) == [r] + refs;
    }
  }

  lemma InsertSpec(r: IndexReference, refs: seq<IndexReference>)
    requires NewestFirst(refs)
    ensures NewestFirst(Insert(r, refs))
    ensures multiset(Insert(r, refs)) == multiset(refs) + multiset{r}
    ensures |Insert(r, refs)| > 0
    ensures Insert(r, refs)[0] == (if refs != [] && refs[0].timestampUs >= r.timestampUs then refs[0] else r)
  {
    InsertMembers(r, refs);
    InsertHead(r, refs);
    InsertSorted(r, refs);
  }

  /** The listing is ordered newest first and holds exactly the parsed
      references. */
  lemma {:induction false} SortNewestFirstSpec(refs: seq<IndexReference>)
    ensures NewestFirst(SortNewestFirst(refs))
    ensures multiset(SortNewestFirst(refs)) == multiset(refs)
    decreases |refs|
  {
    if refs != [] {
      var init := refs[..|refs| - 1];
      var last := refs[|refs| - 1];
      assert refs == init + [last];
      SortNewestFirstSpec(init);
      var sorted := SortNewestFirst(init);
      assert SortNewestFirst(refs) == Insert(last, sorted);
      InsertMembers(last, sorted);
      InsertSorted(last, sorted);
    }
  }

  /** What `open` yields: the references of all directory entries, newest
      first, or an error when the directory is missing, `read_dir` fails,
      or any entry fails or is not a snapshot file name. */
  function OpenSpec(indexPath: string, dirExists: bool, listing: Result<seq<DirEntry>>): Result<seq<IndexReference>> {
    if !dirExists then Err(IndexNotFound(indexPath))
    else if listing.Err? then Err(listing.msg)
    else
      match ParseAll(listing.value)
      case Err(e) => Err(e)
      case Ok(refs) => Ok(SortNewestFirst(refs))
  }

  /** `open` fails exactly when the directory is missing, `read_dir` fails,
      or some entry fails or has a name that does not parse; otherwise it
      lists every entry's reference, newest first. */
  lemma OpenSpecProperties(indexPath: string, dirExists: bool, listing: Result<seq<DirEntry>>)
    ensures OpenSpec(indexPath, dirExists, listing).Err? <==>
      !dirExists || listing.Err? || exists i :: 0 <= i < |listing.value| && ParseEntry(listing.value[i]).Err?
    ensures OpenSpec(indexPath, dirExists, listing).Ok? ==>
      NewestFirst(OpenSpec(indexPath, dirExists, listing).value)
      && |OpenSpec(indexPath, dirExists, listing).value| == |listing.value|
      && multiset(OpenSpec(indexPath, dirExists, listing).value) == multiset(ParseAll(listing.value).value)
      && forall i :: 0 <= i < |listing.value| ==> listing.value[i].Named?
  {
    if dirExists && listing.Ok? {
      ParseAllSpec(listing.value);
    }
    if dirExists && listing.Ok? && ParseAll(listing.value).Ok? {
      var refs := ParseAll(listing.value).value;
      SortNewestFirstSpec(refs);
      assert |SortNewestFirst(refs)| == |refs| by {
        assert |multiset(SortNewestFirst(refs))| == |multiset(refs)|;
      }
    }
  }

  // ---------------------------------------------------------------------
  // Appending and loading

  /** How `File::create(..).and_then(write_all)` ends: the whole file is
      written, the file cannot be created, or it is created (emptied if it
      existed) and writing fails after `bytesWritten` bytes. */
  datatype WriteOutcome = Written | CreateFailed | WriteFailed(bytesWritten: nat)

  /** What `append` returns: an error when the timestamp is not newer than
      the latest listed one, otherwise the reference of the written file,
      whose checksum is that of the compressed encoding. */
  ghost function AppendSpec(env: Env, indexFiles: seq<IndexReference>, v: SnapshotValue,
                            timestampUs: i64, write: WriteOutcome): Result<IndexReference>
  {
    if |indexFiles| > 0 && timestampUs <= indexFiles[0].timestampUs then Err(NEWER_EXISTS)
    else
      match EncodeSpec(v, timestampUs)
      case Err(e) => Err(e)
      case Ok(data) =>
        if !write.Written? then Err(WRITE_ERROR)
        else Ok(IndexReference(timestampUs, Compute(env.digests, v.checksumFunction, env.deflate(data))))
  }

  /** The directory contents after `append`: unchanged when it stops
      before creating the file or the file cannot be created; otherwise the
      file named after the reference holds the compressed encoding, or only
      the part of it written before the failure. */
  ghost function AppendStore(env: Env, indexFiles: seq<IndexReference>, store: map<string, seq<byte>>,
                             v: SnapshotValue, timestampUs: i64, write: WriteOutcome): map<string, seq<byte>>
  {
    if |indexFiles| > 0 && timestampUs <= indexFiles[0].timestampUs then store
    else
      match EncodeSpec(v, timestampUs)
      case Err(_) => store
      case Ok(data) =>
        var compressed := env.deflate(data);
        var name := Filename(IndexReference(timestampUs, Compute(env.digests, v.checksumFunction, compressed)));
        match write
        case Written => store[name := compressed]
        case CreateFailed => store
        case WriteFailed(k) => store[name := compressed[..if k < |compressed| then k else |compressed|]]
  }

  /** A successful append stores the compressed encoding under the
      returned reference's name; a failure other than a failed write
      leaves the directory as it was. */
  lemma AppendStoreSpec(env: Env, indexFiles: seq<IndexReference>, store: map<string, seq<byte>>,
                        v: SnapshotValue, timestampUs: i64, write: WriteOutcome)
    ensures AppendSpec(env, indexFiles, v, timestampUs, write).Ok? ==>
      EncodeSpec(v, timestampUs).Ok?
      && AppendStore(env, indexFiles, store, v, timestampUs, write)
         == store[Filename(AppendSpec(env, indexFiles, v, timestampUs, write).value)
                  := env.deflate(EncodeSpec(v, timestampUs).value)]
    ensures AppendSpec(env, indexFiles, v, timestampUs, write).Err? && !write.WriteFailed? ==>
      AppendStore(env, indexFiles, store, v, timestampUs, write) == store
  {
  }

  /** A write that fails after the file was created leaves a file under
      the name the reference would have had, holding a prefix of the
      compressed encoding; for a non-negative timestamp and a checksum of
      `[a-z0-9]+`, the next listing parses that name as the reference. */
  lemma PartialWriteListed(env: Env, indexFiles: seq<IndexReference>, store: map<string, seq<byte>>,
                           v: SnapshotValue, timestampUs: i64, k: nat)
    requires AppendSpec(env, indexFiles, v, timestampUs, Written).Ok?
    ensures var r := AppendSpec(env, indexFiles, v, timestampUs, Written).value;
      var after := AppendStore(env, indexFiles, store, v, timestampUs, WriteFailed(k));
      AppendSpec(env, indexFiles, v, timestampUs, WriteFailed(k)) == Err(WRITE_ERROR)
      && Filename(r) in after
      && after[Filename(r)] <= env.deflate(EncodeSpec(v, timestampUs).value)
      && (r.timestampUs >= 0 && IsChecksumText(r.checksum) ==> ParseFilename(Filename(r)) == Ok(r))
  {
    var r := AppendSpec(env, indexFiles, v, timestampUs, Written).value;
    if r.timestampUs >= 0 && IsChecksumText(r.checksum) {
      FilenameRoundTrip(r);
    }
  }

  /** `Path::join` of a relative file name onto the directory `dir`: a
      separator is inserted unless `dir` is empty or already ends in one. */
  function JoinPath(dir: string, name: string): (p: string)
    ensures |p| >= |dir| + |name| && p[..|dir|] == dir && p[|p| - |name|..] == name
    ensures dir == "" || dir[|dir| - 1] == '/' ==> p == dir + name
  {
    if dir == "" || dir[|dir| - 1] == '/' then dir + name else dir + "/" + name
  }

  predicate HasRoot(p: string) {
    |p| > 0 && p[0] == '/'
  }

  /** The index path `open` works on: the given one when it is absolute,
      otherwise the given one under the data directory. */
  function ResolveIndexPath(dataDir: string, indexPath: string): (p: string)
    ensures |p| >= |indexPath| && p[|p| - |indexPath|..] == indexPath
    ensures HasRoot(indexPath) ==> p == indexPath
    ensures !HasRoot(indexPath) ==> |p| >= |dataDir| && p[..|dataDir|] == dataDir
    ensures HasRoot(dataDir) || HasRoot(indexPath) ==> HasRoot(p)
  {
    if HasRoot(indexPath) then indexPath else JoinPath(dataDir, indexPath)
  }

  /** What `load` returns for the directory `indexPath` whose contents are
      `store`. */
  function LoadSpec(env: Env, indexPath: string, store: map<string, seq<byte>>, r: IndexReference): Result<SnapshotValue> {
    var name := Filename(r);
    if name !in store then Err(READ_ERROR + name)
    else
      match env.inflate(store[name])
      case Err(e) => Err(e)
      case Ok(data) =>
        match DecodeSpec(data, r.timestampUs)
        case Err(e) => Err(e)
        case Ok(v) =>
          if Compute(env.digests, v.checksumFunction, store[name]) != r.checksum then
            Err(CHECKSUM_MISMATCH + Quoted(JoinPath(indexPath, name)))
          else Ok(v)
  }

  /** In a listing ordered newest first, an accepted append is newer than
      every listed snapshot, and it carries the given timestamp. */
  lemma AppendIsNewest(env: Env, indexFiles: seq<IndexReference>, v: SnapshotValue, timestampUs: i64, write: WriteOutcome)
    requires NewestFirst(indexFiles)
    ensures AppendSpec(env, indexFiles, v, timestampUs, write).Ok? ==>
      AppendSpec(env, indexFiles, v, timestampUs, write).value.timestampUs == timestampUs
      && forall i :: 0 <= i < |indexFiles| ==> indexFiles[i].timestampUs < timestampUs
  {
  }

  /** A loaded snapshot's compressed file hashes to the reference's checksum. */
  lemma LoadChecksMatch(env: Env, indexPath: string, store: map<string, seq<byte>>, r: IndexReference)
    ensures LoadSpec(env, indexPath, store, r).Ok? ==>
      Filename(r) in store
      && Compute(env.digests, LoadSpec(env, indexPath, store, r).value.checksumFunction, store[Filename(r)]) == r.checksum
  {
  }

  /** Loading what `append` wrote gives back the snapshot (absent
      modification times read back as 0), when decompression undoes
      compression. */
  lemma AppendThenLoad(env: Env, indexPath: string, indexFiles: seq<IndexReference>, store: map<string, seq<byte>>,
                       v: SnapshotValue, timestampUs: i64)
    requires forall text :: env.inflate(env.deflate(text)) == Ok(text)
    requires Encodable(v)
    requires AppendSpec(env, indexFiles, v, timestampUs, Written).Ok?
    ensures EncodeSpec(v, timestampUs).Ok?
    ensures LoadSpec(env, indexPath, store[Filename(AppendSpec(env, indexFiles, v, timestampUs, Written).value)
                                 := env.deflate(EncodeSpec(v, timestampUs).value)],
                     AppendSpec(env, indexFiles, v, timestampUs, Written).value)
            == Ok(Normalized(v))
  {
    RoundTrip(v, timestampUs);
  }

  class IndexDirectory {
    /** The index path, as `to_str` renders it. */
    const indexPath: string
    var indexFiles: seq<IndexReference>
    /** The files of the index directory, by name. */
    var store: map<string, seq<byte>>

    ghost predicate Valid()
      reads this
    {
      NewestFirst(indexFiles)
    }

    constructor FromListing(indexPath: string, indexFiles: seq<IndexReference>, store: map<string, seq<byte>>)
      ensures this.indexPath == indexPath && this.indexFiles == indexFiles && this.store == store
    {
      this.indexPath := indexPath;
      this.indexFiles := indexFiles;
      this.store := store;
    }

    /** The entry loop of `open`: the references of `entries` in order, or
        the error of the first entry that does not parse. */
    static method ParseListing(entries: seq<DirEntry>) returns (r: Result<seq<IndexReference>>)
      ensures r == ParseAll(entries)
    {
      var refs: seq<IndexReference> := [];
      for i := 0 to |entries|
        invariant ParseAll(entries[..i]) == Ok(refs)
      {
        assert entries[..i + 1][..i] == entries[..i];
        var parsed := ParseEntry(entries[i]);
        if parsed.Err? {
          ParseAllSticky(entries[..i + 1], entries[i + 1..]);
          assert entries[..i + 1] + entries[i + 1..] == entries;
          return Err(parsed.msg);
        }
        refs := refs + [parsed.value];
      }
      assert entries[..|entries|] == entries;
      return Ok(refs);
    }

    /** `open`: `dataDir` and `indexPath` are the paths given, as `to_str`
        renders them (empty when not Unicode); `dirExists` is whether the
        resolved index path exists and `listing` what `read_dir` yields for
        it: its error, or its entries in order. */
    static method Open(dataDir: string, indexPath: string, dirExists: bool, listing: Result<seq<DirEntry>>,
                       contents: map<string, seq<byte>>)
      returns (r: Result<IndexDirectory>)
      ensures var path := ResolveIndexPath(dataDir, indexPath);
        OpenSpec(path, dirExists, listing).Err? ==> r == Err(OpenSpec(path, dirExists, listing).msg)
      ensures var path := ResolveIndexPath(dataDir, indexPath);
        OpenSpec(path, dirExists, listing).Ok? ==>
          r.Ok? && fresh(r.value) && r.value.indexFiles == OpenSpec(path, dirExists, listing).value
          && r.value.indexPath == path && r.value.store == contents && r.value.Valid()
    {
      var path := ResolveIndexPath(dataDir, indexPath);
      if !dirExists {
        return Err(IndexNotFound(path));
      }
      if listing.Err? {
        return Err(listing.msg);
      }
      var refs := ParseListing(listing.value);
      if refs.Err? {
        return Err(refs.msg);
      }
      SortNewestFirstSpec(refs.value);
      var d := new IndexDirectory.FromListing(path, SortNewestFirst(refs.value), contents);
      return Ok(d);
    }

    /** `latest`: the first listed reference, which in a listing ordered
        newest first is at least as new as every other. */
    function Latest(): (r: Option<IndexReference>)
      reads this
      ensures r.None? <==> |indexFiles| == 0
      ensures r.Some? ==> r.value in indexFiles
      ensures r.Some? && Valid() ==> forall i :: 0 <= i < |indexFiles| ==> indexFiles[i].timestampUs <= r.value.timestampUs
    {
      if |indexFiles| > 0 then Some(indexFiles[0]) else None
    }

    /** `append`: `write` is how creating and writing the file ends. The
        new reference is not added to the listing. */
    method Append(env: Env, snapshot: IndexSnapshot, timestampUs: i64, write: WriteOutcome) returns (r: Result<IndexReference>)
      modifies this
      ensures r == AppendSpec(env, old(indexFiles), snapshot.Value(), timestampUs, write)
      ensures indexFiles == old(indexFiles)
      ensures store == AppendStore(env, old(indexFiles), old(store), snapshot.Value(), timestampUs, write)
    {
      var latest := Latest();
      if latest.Some? && timestampUs <= latest.value.timestampUs {
        return Err(NEWER_EXISTS);
      }
      var encoded := snapshot.Encode(timestampUs);
      if encoded.Err? {
        return Err(encoded.msg);
      }
      var compressed := env.deflate(encoded.value);
      var checksum := Compute(env.digests, snapshot.checksumFunction, compressed);
      var reference := IndexReference(timestampUs, checksum);
      match write
      case CreateFailed =>
        return Err(WRITE_ERROR);
      case WriteFailed(k) =>
        store := store[Filename(reference) := compressed[..if k < |compressed| then k else |compressed|]];
        return Err(WRITE_ERROR);
      case Written =>
        store := store[Filename(reference) := compressed];
        return Ok(reference);
    }

    /** `load`. */
    method Load(env: Env, reference: IndexReference) returns (r: Result<IndexSnapshot>)
      ensures LoadSpec(env, indexPath, store, reference).Err? ==> r == Err(LoadSpec(env, indexPath, store, reference).msg)
      ensures LoadSpec(env, indexPath, store, reference).Ok? ==>
        r.Ok? && fresh(r.value) && r.value.Value() == LoadSpec(env, indexPath, store, reference).value
    {
      var name := Filename(reference);
      if name !in store {
        return Err(READ_ERROR + name);
      }
      var compressed := store[name];
      var data := env.inflate(compressed);
      if data.Err? {
        return Err(data.msg);
      }
      var snapshot := IndexSnapshot.Decode(data.value, reference.timestampUs);
      if snapshot.Err? {
        return Err(snapshot.msg);
      }
      var checksum := Compute(env.digests, snapshot.value.checksumFunction, compressed);
      if checksum != reference.checksum {
        return Err(CHECKSUM_MISMATCH + Quoted(JoinPath(indexPath, name)));
      }
      return Ok(snapshot.value);
    }
  }
}
