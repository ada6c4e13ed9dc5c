/** op_verify.cc: checking the files under a root directory against the
    records of an index file. Each record is sorted into one of four
    outcomes: its file is missing, has the wrong size, has the wrong
    content, or is intact. Counters and a list of messages collect the
    outcomes. The files under the root are a map from the path relative to
    the root to the content, and SHA-1 is a parameter. */
module Verify {
  import opened Wrappers
  import opened Text
  import opened ChecksumCodec
  import opened IndexRecords
  import opened IndexRead
  import ChecksumFunction

  /** `VerifyMessageType`. */
  datatype VerifyMessageType = MISSING | CORRUPT_DATA | CORRUPT_SIZE

  /** `VerifyMessage`: a finding about the file at `path`. */
  datatype VerifyMessage = VerifyMessage(typ: VerifyMessageType, path: string)

  /** What verifying one record finds. */
  datatype Outcome = Intact | Missing | CorruptSize | CorruptData

  /** The counters and messages of a `VerifyResult`, as a value. */
  datatype Totals = Totals(countOk: nat, countMissing: nat, countCorrupt: nat, messages: seq<VerifyMessage>)

  const ZERO: Totals := Totals(0, 0, 0, [])

  // ---------------------------------------------------------------------
  // Classifying one record

  /** The SHA-1 of the file matches every recorded checksum; a record with
      no checksum never matches, and a recorded MD5 never equals a computed
      SHA-1. (Every checksum `index_read` produces has the size of its type;
      one that had not would not match.) */
  predicate ChecksumsMatch(sha1: Sha1, fs: ChecksumFunction.Files, r: IndexRecord)
    requires r.path in fs
  {
    r.checksums != []
    && forall j :: 0 <= j < |r.checksums| ==>
         Valid(r.checksums[j]) && Compare(ComputeSha1(sha1, fs, r.path).value, r.checksums[j])
  }

  /** `op_verify_record`: existence first, then the size, then the
      checksums. */
  function Classify(sha1: Sha1, fs: ChecksumFunction.Files, r: IndexRecord): Outcome
  {
    if r.path !in fs then Missing
    else if |fs[r.path]| != r.size as int then CorruptSize
    else if !ChecksumsMatch(sha1, fs, r) then CorruptData
    else Intact
  }

  /** The message an outcome adds for the file at `path`: none when intact. */
  function MessageFor(o: Outcome, path: string): seq<VerifyMessage> {
    match o
    case Intact => []
    case Missing => [VerifyMessage(MISSING, path)]
    case CorruptSize => [VerifyMessage(CORRUPT_SIZE, path)]
    case CorruptData => [VerifyMessage(CORRUPT_DATA, path)]
  }

  /** The totals after one more outcome: exactly one counter goes up. */
  function Tally(t: Totals, o: Outcome, path: string): Totals {
    match o
    case Intact => t.(countOk := t.countOk + 1)
    case Missing => t.(countMissing := t.countMissing + 1, messages := t.messages + MessageFor(o, path))
    case CorruptSize => t.(countCorrupt := t.countCorrupt + 1, messages := t.messages + MessageFor(o, path))
    case CorruptData => t.(countCorrupt := t.countCorrupt + 1, messages := t.messages + MessageFor(o, path))
  }

  /** What verifying each record finds, with the record's path. */
  datatype Finding = Finding(outcome: Outcome, path: string)

  function Findings(sha1: Sha1, fs: ChecksumFunction.Files, entries: seq<IndexRecord>): (r: seq<Finding>)
    ensures |r| == |entries|
    ensures forall i :: 0 <= i < |entries| ==> r[i] == Finding(Classify(sha1, fs, entries[i]), entries[i].path)
  {
    seq(|entries|, i requires 0 <= i < |entries| => Finding(Classify(sha1, fs, entries[i]), entries[i].path))
  }

  /** A record's outcome depends on that record alone: verifying `a + b`
      finds what verifying `a` and then `b` finds. */
  lemma FindingsAppend(sha1: Sha1, fs: ChecksumFunction.Files, a: seq<IndexRecord>, b: seq<IndexRecord>)
    ensures Findings(sha1, fs, a + b) == Findings(sha1, fs, a) + Findings(sha1, fs, b)
  {
    var whole := Findings(sha1, fs, a + b);
    var parts := Findings(sha1, fs, a) + Findings(sha1, fs, b);
    forall i | 0 <= i < |a + b| ensures whole[i] == parts[i] {
      if i < |a| {
        assert (a + b)[i] == a[i];
      } else {
        assert (a + b)[i] == b[i - |a|];
      }
    }
  }

  /** The totals after the findings `fds`, taken in order from `ZERO`. */
  function TallyAll(fds: seq<Finding>): Totals {
    if fds == [] then ZERO
    else
      var last := fds[|fds| - 1];
      Tally(TallyAll(fds[..|fds| - 1]), last.outcome, last.path)
  }

  /** The messages of `fds`, one per record that is not intact, in the
      order of the records. */
  function Reports(fds: seq<Finding>): seq<VerifyMessage> {
    if fds == [] then []
    else MessageFor(fds[0].outcome, fds[0].path) + Reports(fds[1..])
  }

  /** The totals of verifying the records read from the lines of an index
      file. */
  function FileTotals(sha1: Sha1, fs: ChecksumFunction.Files, lines: seq<string>): Totals {
    TallyAll(Findings(sha1, fs, ReadAll(lines).0))
  }

  // ---------------------------------------------------------------------
  // The result object

  /** `VerifyResult`: the counters and messages, updated in place. */
  class VerifyResult {
    var countOk: nat
    var countMissing: nat
    var countCorrupt: nat
    var messages: seq<VerifyMessage>

    /** The counters start at zero, with no message. */
    constructor ()
      ensures Value() == ZERO
    {
      countOk := 0;
      countMissing := 0;
      countCorrupt := 0;
      messages := [];
    }

    function Value(): Totals
      reads this
    {
      Totals(countOk, countMissing, countCorrupt, messages)
    }

    /** `op_verify_result_add_ok`: one more intact file, no message. */
    method AddOk()
      modifies this
      ensures Value() == Tally(old(Value()), Intact, "")
    {
      countOk := countOk + 1;
    }

    /** `op_verify_result_add_missing`. */
    method AddMissing(path: string)
      modifies this
      ensures Value() == Tally(old(Value()), Missing, path)
    {
      countMissing := countMissing + 1;
      messages := messages + [VerifyMessage(MISSING, path)];
    }

    /** `op_verify_result_add_corrupt_size`. */
    method AddCorruptSize(path: string)
      modifies this
      ensures Value() == Tally(old(Value()), CorruptSize, path)
    {
      countCorrupt := countCorrupt + 1;
      messages := messages + [VerifyMessage(CORRUPT_SIZE, path)];
    }

    /** `op_verify_result_add_corrupt_data`. */
    method AddCorruptData(path: string)
      modifies this
      ensures Value() == Tally(old(Value()), CorruptData, path)
    {
      countCorrupt := countCorrupt + 1;
      messages := messages + [VerifyMessage(CORRUPT_DATA, path)];
    }
  }

  // ---------------------------------------------------------------------
  // The operation

  /** `op_verify_record_checksums` for a record whose file exists: the
      file's SHA-1 is computed for each recorded checksum in turn and
      compared with it. */
  method RecordChecksums(sha1: Sha1, fs: ChecksumFunction.Files, r: IndexRecord) returns (ok: bool)
    requires r.path in fs && ValidRecord(r)
    ensures ok <==> ChecksumsMatch(sha1, fs, r)
  {
    if |r.checksums| == 0 {
      return false;
    }
    for j := 0 to |r.checksums|
      invariant forall k :: 0 <= k < j ==> Compare(ComputeSha1(sha1, fs, r.path).value, r.checksums[k])
    {
      var actual := ComputeSha1(sha1, fs, r.path);
      if !Compare(actual.value, r.checksums[j]) {
        return false;
      }
    }
    return true;
  }

  /** `op_verify_record`: records the outcome of one record in `result`. */
  method VerifyRecord(sha1: Sha1, fs: ChecksumFunction.Files, r: IndexRecord, result: VerifyResult)
    requires ValidRecord(r)
    modifies result
    ensures result.Value() == Tally(old(result.Value()), Classify(sha1, fs, r), r.path)
  {
    if r.path !in fs {
      result.AddMissing(r.path);
      return;
    }
    if |fs[r.path]| != r.size as int {
      result.AddCorruptSize(r.path);
      return;
    }
    var ok := RecordChecksums(sha1, fs, r);
    if !ok {
      result.AddCorruptData(r.path);
      return;
    }
    result.AddOk();
  }

  /** `op_verify`: reads the index file at `indexPath` (`None` when it
      cannot be opened) and verifies each of its records in order. A file
      that cannot be read fails the whole operation with the error of
      `index_read`. */
  method OpVerify(sha1: Sha1, fs: ChecksumFunction.Files, indexPath: string, file: Option<seq<string>>)
    returns (r: Result<VerifyResult>)
    ensures file.None? ==> r == Err(UNABLE_TO_OPEN + indexPath)
    ensures file.Some? && ReadAll(file.value).1.Some? ==> r == Err(ReadAll(file.value).1.value)
    ensures file.Some? && ReadAll(file.value).1.None? ==>
      r.Ok? && fresh(r.value) && r.value.Value() == FileTotals(sha1, fs, file.value)
  {
    var read := ReadIndex(indexPath, file);
    if read.Err? {
      return Err(read.msg);
    }
    var result := new VerifyResult();
    VerifyAll(sha1, fs, read.value, result);
    return Ok(result);
  }

  /** The reading part of `op_verify`: the records of the index file, or
      the error that stops the operation. */
  method ReadIndex(indexPath: string, file: Option<seq<string>>) returns (r: Result<seq<IndexRecord>>)
    ensures file.None? ==> r == Err(UNABLE_TO_OPEN + indexPath)
    ensures file.Some? && ReadAll(file.value).1.Some? ==> r == Err(ReadAll(file.value).1.value)
    ensures file.Some? && ReadAll(file.value).1.None? ==> r == Ok(ReadAll(file.value).0)
    ensures r.Ok? ==> forall i :: 0 <= i < |r.value| ==> ValidRecord(r.value[i])
  {
    var index := new Index();
    var err := ReadRecords(indexPath, file, index);
    if err.Some? {
      return Err(err.value);
    }
    ReadAllValid(file.value);
    assert [] + ReadAll(file.value).0 == ReadAll(file.value).0;
    return Ok(index.entries);
  }

  /** The loop of `op_verify`: each record of the index in turn, starting
      from a fresh result. */
  method VerifyAll(sha1: Sha1, fs: ChecksumFunction.Files, entries: seq<IndexRecord>, result: VerifyResult)
    requires forall i :: 0 <= i < |entries| ==> ValidRecord(entries[i])
    requires result.Value() == ZERO
    modifies result
    ensures result.Value() == TallyAll(Findings(sha1, fs, entries))
  {
    ghost var fds := Findings(sha1, fs, entries);
    for i := 0 to |entries|
      invariant result.Value() == TallyAll(fds[..i])
    {
      assert fds[..i + 1][..i] == fds[..i];
      VerifyRecord(sha1, fs, entries[i], result);
    }
    assert fds[..|entries|] == fds;
  }

  // ---------------------------------------------------------------------
  // Properties

  /** Each record bumps exactly one counter: the counters add up to the
      number of records. */
  lemma {:induction false} CountsAddUp(fds: seq<Finding>)
    ensures var t := TallyAll(fds);
      t.countOk + t.countMissing + t.countCorrupt == |fds|
    decreases |fds|
  {
    if fds != [] {
      CountsAddUp(fds[..|fds| - 1]);
    }
  }

  /** There is one message per missing or corrupt file, and none for an
      intact one. */
  lemma {:induction false} OneMessagePerProblem(fds: seq<Finding>)
    ensures var t := TallyAll(fds);
      |t.messages| == t.countMissing + t.countCorrupt
    decreases |fds|
  {
    if fds != [] {
      OneMessagePerProblem(fds[..|fds| - 1]);
    }
  }

  lemma {:induction false} ReportsAppend(a: seq<Finding>, b: seq<Finding>)
    ensures Reports(a + b) == Reports(a) + Reports(b)
    decreases |a|
  {
    if a != [] {
      ReportsAppend(a[1..], b);
      assert (a + b)[1..] == a[1..] + b;
    } else {
      assert a + b == b;
    }
  }

  /** The messages are those of the records that are not intact, in the
      order of the records. */
  lemma {:induction false} MessagesInOrder(fds: seq<Finding>)
    ensures TallyAll(fds).messages == Reports(fds)
    decreases |fds|
  {
    if fds != [] {
      var init := fds[..|fds| - 1];
      var last := fds[|fds| - 1];
      MessagesInOrder(init);
      ReportsAppend(init, [last]);
      assert init + [last] == fds;
      assert Reports([last]) == MessageFor(last.outcome, last.path) + [];
    }
  }

  /** Verifying an index file: every record read is counted once, and the
      messages are those of the records found missing or corrupt, in the
      order of the file. */
  lemma FileTotalsMeaning(sha1: Sha1, fs: ChecksumFunction.Files, lines: seq<string>)
    ensures var t := FileTotals(sha1, fs, lines);
      t.countOk + t.countMissing + t.countCorrupt == |ReadAll(lines).0|
      && |t.messages| == t.countMissing + t.countCorrupt
      && t.messages == Reports(Findings(sha1, fs, ReadAll(lines).0))
  {
    var fds := Findings(sha1, fs, ReadAll(lines).0);
    CountsAddUp(fds);
    OneMessagePerProblem(fds);
    MessagesInOrder(fds);
  }


  /** A missing file is reported as missing whatever its record says; an
      existing file of the wrong size as corrupt in size whatever its
      checksums. */
  lemma ExistenceThenSize(sha1: Sha1, fs: ChecksumFunction.Files, r: IndexRecord)
    ensures Classify(sha1, fs, r) == Missing <==> r.path !in fs
    ensures Classify(sha1, fs, r) == CorruptSize <==> r.path in fs && |fs[r.path]| != r.size as int
  {
  }

  /** A record with no checksum, or with any checksum that is not the
      SHA-1 of the file, is corrupt in data once size and existence are
      right; a record is intact exactly when all of it matches. */
  lemma DataCheck(sha1: Sha1, fs: ChecksumFunction.Files, r: IndexRecord)
    requires r.path in fs && |fs[r.path]| == r.size as int
    ensures Classify(sha1, fs, r) == Intact <==>
      r.checksums != [] && forall j :: 0 <= j < |r.checksums| ==> r.checksums[j] == Checksum(SHA1, sha1(fs[r.path]))
    ensures r.checksums == [] ==> Classify(sha1, fs, r) == CorruptData
  {
  }

  /** A recorded MD5 checksum never matches: a record holding one is at
      best corrupt in data. */
  lemma Md5NeverMatches(sha1: Sha1, fs: ChecksumFunction.Files, r: IndexRecord, j: nat)
    requires j < |r.checksums| && r.checksums[j].typ == MD5
    ensures Classify(sha1, fs, r) != Intact
  {
    if r.path in fs && |fs[r.path]| == r.size as int {
      assert ComputeSha1(sha1, fs, r.path).value.typ != r.checksums[j].typ;
      assert !(Valid(r.checksums[j]) && Compare(ComputeSha1(sha1, fs, r.path).value, r.checksums[j]));
    }
  }
}
