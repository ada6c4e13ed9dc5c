/** `IndexSnapshot` of src/index.rs: a map from path to file record, the
    checksum function of the store and an optional message; its in-place
    updates, its totals, and its line-oriented text encoding. */
module Snapshot {
  import opened Wrappers
  import opened Text
  import opened ChecksumFunction
  import opened Escaping

  datatype FileInfo = FileInfo(sizeBytes: u64, modifiedTimestampUs: Option<i64>, checksum: Option<string>)

  type FileMap = map<string, FileInfo>

  /** The value held by an `IndexSnapshot`. */
  datatype SnapshotValue = SnapshotValue(checksumFunction: ChecksumFunction, files: FileMap, message: Option<string>)

  const MISSING_CHECKSUM: string := "missing checksum"
  const INVALID_SIZE: string := "invalid index file (invalid size)"
  const INVALID_LINE: string := "invalid index file"
  const INVALID_TIMESTAMP: string := "invalid digit found in string"
  const TIMESTAMP_MISMATCH: string := "timestamp does not match"

  // ---------------------------------------------------------------------
  // Totals

  /** The sum of all sizes, independent of any order. */
  ghost function SumSizes(m: FileMap): nat
    decreases |m|
  {
    if |m| == 0 then 0
    else
      var k := Pick(m);
      m[k].sizeBytes as nat + SumSizes(m - {k})
  }

  /** Some path of a non-empty map. */
  ghost function Pick(m: FileMap): (k: string)
    requires |m| > 0
    ensures k in m
  {
    assert m.Keys != {} by { assert |m.Keys| == |m|; }
    var k :| k in m; k
  }

  /** The sizes of the records at `ks`, added in that order. */
  function SumOver(m: FileMap, ks: seq<string>): nat
    requires forall i :: 0 <= i < |ks| ==> ks[i] in m
  {
    if ks == [] then 0 else m[ks[0]].sizeBytes as nat + SumOver(m, ks[1..])
  }

  /** `files.iter().fold(0, |acc, (_, f)| acc + f.size_bytes)` in u64
      arithmetic, which wraps around at 2^64 in a release build. */
  function FoldSizes(acc: u64, m: FileMap, ks: seq<string>): u64
    requires forall i :: 0 <= i < |ks| ==> ks[i] in m
    decreases |ks|
  {
    if ks == [] then acc
    else FoldSizes(((acc as int + m[ks[0]].sizeBytes as int) % U64_LIMIT) as u64, m, ks[1..])
  }

  class IndexSnapshot {
    var checksumFunction: ChecksumFunction
    var files: FileMap
    var message: Option<string>

    /** `IndexSnapshot::new`. */
    constructor (f: ChecksumFunction)
      ensures checksumFunction == f && files == map[] && message == None
    {
      checksumFunction := f;
      files := map[];
      message := None;
    }

    constructor FromValue(v: SnapshotValue)
      ensures Value() == v
    {
      checksumFunction := v.checksumFunction;
      files := v.files;
      message := v.message;
    }

    function Value(): SnapshotValue
      reads this
    {
      SnapshotValue(checksumFunction, files, message)
    }

    /** `get`. */
    function Get(path: string): Option<FileInfo>
      reads this
    {
      if path in files then Some(files[path]) else None
    }

    /** `list`: the paths in ascending order. */
    method List() returns (paths: seq<string>)
      ensures paths == SortedKeys(files.Keys)
    {
      paths := SortedPaths(files);
    }

    /** `update`: inserts or replaces the record of `path`; nothing else changes. */
    method Update(path: string, info: FileInfo)
      modifies this
      ensures files == old(files)[path := info]
      ensures checksumFunction == old(checksumFunction) && message == old(message)
    {
      files := files[path := info];
    }

    /** `delete`: removes `path`; nothing else changes. */
    method Delete(path: string)
      modifies this
      ensures files == old(files) - {path}
      ensures checksumFunction == old(checksumFunction) && message == old(message)
    {
      files := files - {path};
    }

    /** `total_size_bytes`: the sum of all sizes, modulo 2^64. */
    ghost function TotalSizeBytes(): (r: u64)
      reads this
      ensures r as int == SumSizes(files) % U64_LIMIT
    {
      SumOverSorted(files);
      var ks := SortedKeys(files.Keys);
      FoldSizesIsSum(0, files, ks);
      FoldSizes(0, files, ks)
    }

    /** `total_file_count`: the number of paths. */
    ghost function TotalFileCount(): (r: nat)
      reads this
      ensures r == |files|
    {
      SortedKeysSpec(files.Keys);
      |SortedKeys(files.Keys)|
    }

    /** `encode`: see EncodeSpec. */
    method Encode(timestampUs: i64) returns (r: Result<string>)
      ensures r == EncodeSpec(Value(), timestampUs)
    {
      ghost var header: seq<string> := [];
      var data := "";
      var line := "#checksum " + ToStr(checksumFunction);
      JoinLinesAppend(header, line);
      data, header := data + line + "\n", header + [line];
      line := "#timestamp " + SignedDecimal(timestampUs as int);
      JoinLinesAppend(header, line);
      data, header := data + line + "\n", header + [line];
      if message.Some? {
        var m := EncodeString(message.value);
        line := "#message " + m;
        JoinLinesAppend(header, line);
        data, header := data + line + "\n", header + [line];
      }
      assert header == HeaderLines(Value(), timestampUs);
      var keys := List();
      SortedKeysSame(files.Keys);
      r := EncodeRecords(HeaderLines(Value(), timestampUs), data, files, keys);
      if r.Ok? {
        AllChecksumsPresent(files, keys);
      } else {
        assert exists k :: k in files && files[k].checksum.None?;
      }
    }

    /** `decode`: see DecodeSpec. */
    static method Decode(data: string, timestampExpectedUs: i64) returns (r: Result<IndexSnapshot>)
      ensures DecodeSpec(data, timestampExpectedUs).Err? ==> r == Err(DecodeSpec(data, timestampExpectedUs).msg)
      ensures DecodeSpec(data, timestampExpectedUs).Ok? ==>
        r.Ok? && fresh(r.value) && r.value.Value() == DecodeSpec(data, timestampExpectedUs).value
    {
      var lines := Lines(data);
      var files: FileMap := map[];
      var checksumFunction := "";
      var message: Option<string> := None;
      var timestampUs: i64 := 0;
      for i := 0 to |lines|
        invariant DecodeLines(lines[..i]) == Ok(DecodeState(files, checksumFunction, message, timestampUs))
      {
        var line := lines[i];
        assert lines[..i + 1] == lines[..i] + [line];
        var fields := Split(line, ' ');
        if |fields| == 2 && fields[0] == "#checksum" {
          checksumFunction := fields[1];
          continue;
        }
        if |fields| == 2 && fields[0] == "#timestamp" {
          var t := ParseI64(fields[1]);
          if t.None? {
            ErrSticky(lines[..i + 1], lines[i + 1..]);
            assert lines[..i + 1] + lines[i + 1..] == lines;
            return Err(INVALID_TIMESTAMP);
          }
          timestampUs := t.value;
          continue;
        }
        if |fields| == 2 && fields[0] == "#message" {
          var m := DecodeString(fields[1]);
          if m.Err? {
            ErrSticky(lines[..i + 1], lines[i + 1..]);
            assert lines[..i + 1] + lines[i + 1..] == lines;
            return Err(m.msg);
          }
          message := Some(m.value);
          continue;
        }
        if |fields| == 4 {
          var path := DecodeString(fields[3]);
          if path.Err? {
            ErrSticky(lines[..i + 1], lines[i + 1..]);
            assert lines[..i + 1] + lines[i + 1..] == lines;
            return Err(path.msg);
          }
          var size := ParseU64(fields[1]);
          if size.None? {
            ErrSticky(lines[..i + 1], lines[i + 1..]);
            assert lines[..i + 1] + lines[i + 1..] == lines;
            return Err(INVALID_SIZE + ": " + Quoted(line));
          }
          files := files[path.value := FileInfo(size.value, ParseI64(fields[2]), Some(fields[0]))];
          continue;
        }
        ErrSticky(lines[..i + 1], lines[i + 1..]);
        assert lines[..i + 1] + lines[i + 1..] == lines;
        return Err(INVALID_LINE + ": " + Quoted(line));
      }
      assert lines[..|lines|] == lines;
      var f := FromStr(checksumFunction);
      if f.Err? {
        return Err(f.msg);
      }
      if timestampUs != timestampExpectedUs {
        return Err(TIMESTAMP_MISMATCH);
      }
      var s := new IndexSnapshot.FromValue(SnapshotValue(f.value, files, message));
      return Ok(s);
    }
  }

  // ---------------------------------------------------------------------
  // The encoding

  function HeaderLines(v: SnapshotValue, timestampUs: i64): seq<string> {
    ["#checksum " + ToStr(v.checksumFunction), "#timestamp " + SignedDecimal(timestampUs as int)]
    + (if v.message.Some? then ["#message " + Escape(v.message.value)] else [])
  }

  /** `checksum size mtime path`, with a missing mtime written as 0. */
  function RecordLine(path: string, info: FileInfo): string {
    info.checksum.GetOr("") + " " + Decimal(info.sizeBytes as nat) + " "
    + SignedDecimal(info.modifiedTimestampUs.GetOr(0) as int) + " " + Escape(path)
  }

  function RecordLines(files: FileMap, ks: seq<string>): seq<string>
    requires forall i :: 0 <= i < |ks| ==> ks[i] in files
  {
    if ks == [] then []
    else RecordLines(files, ks[..|ks| - 1]) + [RecordLine(ks[|ks| - 1], files[ks[|ks| - 1]])]
  }

  /** The record loop of `encode`, from the header text `data`. */
  method EncodeRecords(ghost header: seq<string>, data0: string, files: FileMap, keys: seq<string>) returns (r: Result<string>)
    requires data0 == JoinLines(header)
    requires forall j :: 0 <= j < |keys| ==> keys[j] in files
    ensures r.Ok? ==> forall j :: 0 <= j < |keys| ==> files[keys[j]].checksum.Some?
    ensures r.Ok? ==> r.value == JoinLines(header + RecordLines(files, keys))
    ensures r.Err? ==> r == Err(MISSING_CHECKSUM) && exists j :: 0 <= j < |keys| && files[keys[j]].checksum.None?
  {
    var data := data0;
    assert keys[..0] == [] && header + [] == header;
    for i := 0 to |keys|
      invariant data == JoinLines(header + RecordLines(files, keys[..i]))
      invariant forall j :: 0 <= j < i ==> files[keys[j]].checksum.Some?
    {
      var info := files[keys[i]];
      if info.checksum.None? {
        return Err(MISSING_CHECKSUM);
      }
      var line := FormatRecord(keys[i], info);
      RecordLinesStep(header, files, keys, i, line);
      data := data + line + "\n";
      assert forall j :: 0 <= j < i + 1 ==> files[keys[j]].checksum.Some? by {
        assert files[keys[i]] == info;
      }
    }
    assert keys[..|keys|] == keys;
    return Ok(data);
  }

  /** One record line of `encode`, as the `format!` call writes it. */
  method FormatRecord(path: string, info: FileInfo) returns (line: string)
    requires info.checksum.Some?
    ensures line == RecordLine(path, info)
  {
    var escaped := EncodeString(path);
    line := info.checksum.value + " " + Decimal(info.sizeBytes as nat) + " "
      + SignedDecimal(info.modifiedTimestampUs.GetOr(0) as int) + " " + escaped;
  }

  lemma RecordLinesStep(header: seq<string>, files: FileMap, keys: seq<string>, i: nat, line: string)
    requires i < |keys| && forall j :: 0 <= j < |keys| ==> keys[j] in files
    requires line == RecordLine(keys[i], files[keys[i]])
    ensures JoinLines(header + RecordLines(files, keys[..i + 1]))
      == JoinLines(header + RecordLines(files, keys[..i])) + line + "\n"
  {
    assert keys[..i + 1][..i] == keys[..i];
    assert header + RecordLines(files, keys[..i + 1]) == (header + RecordLines(files, keys[..i])) + [line];
    JoinLinesAppend(header + RecordLines(files, keys[..i]), line);
  }

  lemma AllChecksumsPresent(files: FileMap, keys: seq<string>)
    requires forall k :: k in files ==> k in keys
    requires forall j :: 0 <= j < |keys| ==> keys[j] in files && files[keys[j]].checksum.Some?
    ensures !exists k :: k in files && files[k].checksum.None?
    ensures keys[..|keys|] == keys
  {
    forall k | k in files ensures files[k].checksum.Some? {
      var j :| 0 <= j < |keys| && keys[j] == k;
    }
  }

  /** What `encode` produces: the `#checksum`, `#timestamp` and optional
      `#message` headers, then one record line per file in ascending path
      order, each line ending in '\n'. A file without a checksum makes it
      fail (the program panics). */
  ghost function EncodeSpec(v: SnapshotValue, timestampUs: i64): Result<string> {
    if exists k :: k in v.files && v.files[k].checksum.None? then Err(MISSING_CHECKSUM)
    else
      SortedKeysSpec(v.files.Keys);
      Ok(JoinLines(HeaderLines(v, timestampUs) + RecordLines(v.files, SortedKeys(v.files.Keys))))
  }

  // ---------------------------------------------------------------------
  // The decoding

  /** The variables of the decoding loop. */
  datatype DecodeState = DecodeState(files: FileMap, checksumFunction: string, message: Option<string>, timestampUs: i64)

  const INITIAL_STATE: DecodeState := DecodeState(map[], "", None, 0)

  /** One line of the decoding loop. */
  function Step(st: DecodeState, line: string): Result<DecodeState> {
    var fields := Split(line, ' ');
    if |fields| == 2 && fields[0] == "#checksum" then Ok(st.(checksumFunction := fields[1]))
    else if |fields| == 2 && fields[0] == "#timestamp" then
      match ParseI64(fields[1])
      case None => Err(INVALID_TIMESTAMP)
      case Some(t) => Ok(st.(timestampUs := t))
    else if |fields| == 2 && fields[0] == "#message" then
      match Unescape(fields[1])
      case Err(e) => Err(e)
      case Ok(m) => Ok(st.(message := Some(m)))
    else if |fields| == 4 then
      match Unescape(fields[3])
      case Err(e) => Err(e)
      case Ok(path) =>
        match ParseU64(fields[1])
        case None => Err(INVALID_SIZE + ": " + Quoted(line))
        case Some(size) => Ok(st.(files := st.files[path := FileInfo(size, ParseI64(fields[2]), Some(fields[0]))]))
    else Err(INVALID_LINE + ": " + Quoted(line))
  }

  /** The decoding loop over `ls`, from the state `st`. */
  function DecodeFrom(st: DecodeState, ls: seq<string>): Result<DecodeState> {
    if ls == [] then Ok(st)
    else
      match DecodeFrom(st, ls[..|ls| - 1])
      case Err(e) => Err(e)
      case Ok(s) => Step(s, ls[|ls| - 1])
  }

  function DecodeLines(ls: seq<string>): Result<DecodeState> {
    DecodeFrom(INITIAL_STATE, ls)
  }

  /** What `decode` returns: the lines folded into a state, then the
      checksum function name checked, then the timestamp compared. */
  function DecodeSpec(data: string, timestampExpectedUs: i64): Result<SnapshotValue> {
    match DecodeLines(Lines(data))
    case Err(e) => Err(e)
    case Ok(st) =>
      match FromStr(st.checksumFunction)
      case Err(e) => Err(e)
      case Ok(f) =>
        if st.timestampUs != timestampExpectedUs then Err(TIMESTAMP_MISMATCH)
        else Ok(SnapshotValue(f, st.files, st.message))
  }

  /** Once a line fails, the decoding fails whatever follows. */
  lemma {:induction false} ErrSticky(a: seq<string>, b: seq<string>)
    requires DecodeLines(a).Err?
    ensures DecodeLines(a + b) == DecodeLines(a)
    decreases |b|
  {
    if b != [] {
      assert (a + b)[..|a + b| - 1] == a + b[..|b| - 1];
      ErrSticky(a, b[..|b| - 1]);
    } else {
      assert a + b == a;
    }
  }

  // ---------------------------------------------------------------------
  // Facts about the totals

  lemma RemoveSmaller(m: FileMap, k: string)
    requires k in m
    ensures |m - {k}| == |m| - 1 && k in m
  {
    assert (m - {k}).Keys == m.Keys - {k};
    assert |m.Keys| == |m| && |(m - {k}).Keys| == |m - {k}|;
  }

  lemma RemoveTwo(m: FileMap, k: string, p: string)
    requires k in m && p in m && k != p
    ensures p in m - {k} && k in m - {p}
    ensures (m - {k}) - {p} == (m - {p}) - {k}
  {
  }

  lemma {:induction false} SumSizesRemove(m: FileMap, p: string)
    requires p in m
    ensures SumSizes(m) == m[p].sizeBytes as nat + SumSizes(m - {p})
    decreases |m|
  {
    RemoveSmaller(m, p);
    var k := Pick(m);
    if k != p {
      RemoveSmaller(m, k);
      RemoveTwo(m, k, p);
      SumSizesRemove(m - {k}, p);
      SumSizesRemove(m - {p}, k);
    }
  }

  lemma {:induction false} SumOverAgree(m: FileMap, m': FileMap, ks: seq<string>)
    requires forall i :: 0 <= i < |ks| ==> ks[i] in m && ks[i] in m' && m[ks[i]] == m'[ks[i]]
    ensures SumOver(m, ks) == SumOver(m', ks)
  {
    if ks != [] {
      SumOverAgree(m, m', ks[1..]);
    }
  }

  lemma SortedKeysIn(m: FileMap)
    ensures forall i :: 0 <= i < |SortedKeys(m.Keys)| ==> SortedKeys(m.Keys)[i] in m
  {
    SortedKeysSpec(m.Keys);
  }

  lemma {:induction false} SumOverSorted(m: FileMap)
    ensures forall i :: 0 <= i < |SortedKeys(m.Keys)| ==> SortedKeys(m.Keys)[i] in m
    ensures SumOver(m, SortedKeys(m.Keys)) == SumSizes(m)
    decreases |m|
  {
    SortedKeysIn(m);
    if |m| > 0 {
      assert |m.Keys| == |m|;
      var k := Least(m.Keys);
      var m' := m - {k};
      assert m'.Keys == m.Keys - {k};
      var rest := SortedKeys(m'.Keys);
      SortedKeysStep(m.Keys, k);
      SumOverSorted(m');
      SumOverAgree(m, m', rest);
      assert SumOver(m, [k] + rest) == m[k].sizeBytes as nat + SumOver(m, rest) by {
        assert ([k] + rest)[1..] == rest;
      }
      SumSizesRemove(m, k);
    }
  }

  lemma {:induction false} FoldSizesIsSum(acc: u64, m: FileMap, ks: seq<string>)
    requires forall i :: 0 <= i < |ks| ==> ks[i] in m
    ensures FoldSizes(acc, m, ks) as int == (acc as int + SumOver(m, ks)) % U64_LIMIT
    decreases |ks|
  {
    if ks != [] {
      var acc' := ((acc as int + m[ks[0]].sizeBytes as int) % U64_LIMIT) as u64;
      FoldSizesIsSum(acc', m, ks[1..]);
      ModAddLeft(acc as int + m[ks[0]].sizeBytes as int, SumOver(m, ks[1..]));
    }
  }

  lemma ModAddLeft(a: int, b: int)
    ensures ((a % U64_LIMIT) + b) % U64_LIMIT == (a + b) % U64_LIMIT
  {
  }

  /** `update` changes the total size by the new record's size less the old
      record's, and the file count by one exactly when the path is new. */
  lemma UpdateTotals(m: FileMap, p: string, info: FileInfo)
    ensures SumSizes(m[p := info]) + (if p in m then m[p].sizeBytes as nat else 0)
            == SumSizes(m) + info.sizeBytes as nat
    ensures |m[p := info]| == if p in m then |m| else |m| + 1
  {
    UpdateSum(m, p, info);
    UpdateCount(m, p, info);
  }

  lemma UpdateSum(m: FileMap, p: string, info: FileInfo)
    ensures SumSizes(m[p := info]) + (if p in m then m[p].sizeBytes as nat else 0)
            == SumSizes(m) + info.sizeBytes as nat
  {
    SumSizesRemove(m[p := info], p);
    SameRest(m, p, info);
    if p in m {
      SumSizesRemove(m, p);
    } else {
      AbsentRest(m, p);
    }
  }

  lemma AbsentRest(m: FileMap, p: string)
    requires p !in m
    ensures m - {p} == m
  {
  }

  lemma SameRest(m: FileMap, p: string, info: FileInfo)
    ensures m[p := info] - {p} == m - {p}
  {
  }

  lemma UpdateCount(m: FileMap, p: string, info: FileInfo)
    ensures |m[p := info]| == if p in m then |m| else |m| + 1
  {
    var m' := m[p := info];
    RemoveSmaller(m', p);
    SameRest(m, p, info);
    if p in m {
      RemoveSmaller(m, p);
    } else {
      AbsentRest(m, p);
    }
  }

  /** `delete` takes the removed record's size off the total size and one
      off the file count, or changes nothing when the path is absent. */
  lemma DeleteTotals(m: FileMap, p: string)
    ensures SumSizes(m - {p}) + (if p in m then m[p].sizeBytes as nat else 0) == SumSizes(m)
    ensures |m - {p}| == if p in m then |m| - 1 else |m|
  {
    if p in m {
      SumSizesRemove(m, p);
    } else {
      assert m - {p} == m;
    }
  }
}
