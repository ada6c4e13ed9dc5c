/** Properties of the snapshot text encoding of src/index.rs: decoding an
    encoded snapshot gives it back, and which texts decoding accepts. */
module SnapshotCodec {
  import opened Wrappers
  import opened Text
  import opened ChecksumFunction
  import opened Escaping
  import opened Snapshot

  // ---------------------------------------------------------------------
  // Which texts decode

  /** A line the decoding loop accepts, in any state: a `#checksum`,
      `#timestamp` or `#message` header with a well-formed value, or a
      four-field record with a well-formed path and size. The modification
      time field may be anything; an unparsable one reads as absent. */
  predicate LineParses(line: string) {
    var f := Split(line, ' ');
    (|f| == 2 && f[0] == "#checksum")
    || (|f| == 2 && f[0] == "#timestamp" && ParseI64(f[1]).Some?)
    || (|f| == 2 && f[0] == "#message" && Unescape(f[1]).Ok?)
    || (|f| == 4 && Unescape(f[3]).Ok? && ParseU64(f[1]).Some?)
  }

  /** The value of the last two-field line of `ls` whose first field is `tag`. */
  function LastHeader(ls: seq<string>, tag: string): Option<string> {
    if ls == [] then None
    else
      var f := Split(ls[|ls| - 1], ' ');
      if |f| == 2 && f[0] == tag then Some(f[1]) else LastHeader(ls[..|ls| - 1], tag)
  }

  /** `t` is the value of the header `h`, or `default` when there is none. */
  predicate TimestampFrom(t: i64, h: Option<string>, default: i64) {
    if h.Some? then ParseI64(h.value) == Some(t) else t == default
  }

  lemma StepOk(st: DecodeState, line: string)
    ensures Step(st, line).Ok? <==> LineParses(line)
    ensures Step(st, line).Ok? ==>
      Step(st, line).value.checksumFunction == LastHeader([line], "#checksum").GetOr(st.checksumFunction)
    ensures Step(st, line).Ok? ==>
      TimestampFrom(Step(st, line).value.timestampUs, LastHeader([line], "#timestamp"), st.timestampUs)
  {
    assert [line][..0] == [];
  }

  /** The decoding loop succeeds exactly when every line parses; then the
      checksum function name is that of the last `#checksum` header and
      the timestamp that of the last `#timestamp` header, or those of the
      starting state when there is no such header. */
  lemma {:induction false} DecodeFromOk(st: DecodeState, ls: seq<string>)
    ensures DecodeFrom(st, ls).Ok? <==> forall i :: 0 <= i < |ls| ==> LineParses(ls[i])
    ensures DecodeFrom(st, ls).Ok? ==>
      DecodeFrom(st, ls).value.checksumFunction == LastHeader(ls, "#checksum").GetOr(st.checksumFunction)
    ensures DecodeFrom(st, ls).Ok? ==>
      TimestampFrom(DecodeFrom(st, ls).value.timestampUs, LastHeader(ls, "#timestamp"), st.timestampUs)
    decreases |ls|
  {
    if ls != [] {
      var init := ls[..|ls| - 1];
      var last := ls[|ls| - 1];
      DecodeFromOk(st, init);
      assert forall i :: 0 <= i < |init| ==> init[i] == ls[i];
      if DecodeFrom(st, init).Ok? {
        var s := DecodeFrom(st, init).value;
        StepOk(s, last);
        assert [last][..0] == [];
        if Step(s, last).Ok? {
          var f := Split(last, ' ');
          if |f| == 2 && f[0] == "#timestamp" {
            assert LastHeader(ls, "#timestamp") == Some(f[1]);
          }
        }
      }
    }
  }

  /** `decode` accepts a text exactly when every line parses, a
      `#checksum` header names a known function (a text without one is
      rejected) and the last `#timestamp` header carries the expected
      timestamp (a text without one is accepted only when 0 is expected). */
  lemma DecodeSpecOk(data: string, timestampExpectedUs: i64)
    ensures DecodeSpec(data, timestampExpectedUs).Ok? <==>
      (forall i :: 0 <= i < |Lines(data)| ==> LineParses(Lines(data)[i]))
      && LastHeader(Lines(data), "#checksum").Some?
      && FromStr(LastHeader(Lines(data), "#checksum").value).Ok?
      && (if LastHeader(Lines(data), "#timestamp").Some?
          then ParseI64(LastHeader(Lines(data), "#timestamp").value) == Some(timestampExpectedUs)
          else timestampExpectedUs == 0)
  {
    DecodeFromOk(INITIAL_STATE, Lines(data));
    var ls := Lines(data);
    if (forall i :: 0 <= i < |ls| ==> LineParses(ls[i])) && LastHeader(ls, "#timestamp").Some? {
      LastHeaderParses(ls, "#timestamp");
    }
  }

  /** The value of a `#timestamp` header of an accepted text parses. */
  lemma {:induction false} LastHeaderParses(ls: seq<string>, tag: string)
    requires tag == "#timestamp"
    requires forall i :: 0 <= i < |ls| ==> LineParses(ls[i])
    requires LastHeader(ls, tag).Some?
    ensures ParseI64(LastHeader(ls, tag).value).Some?
    decreases |ls|
  {
    var f := Split(ls[|ls| - 1], ' ');
    if !(|f| == 2 && f[0] == tag) {
      LastHeaderParses(ls[..|ls| - 1], tag);
    }
  }

  /** A line that neither is a two-field header nor has four fields makes
      `decode` fail, wherever it stands. */
  lemma RejectsMalformedLine(data: string, timestampExpectedUs: i64, i: nat)
    requires i < |Lines(data)|
    requires |Split(Lines(data)[i], ' ')| != 4
    requires |Split(Lines(data)[i], ' ')| != 2
      || Split(Lines(data)[i], ' ')[0] !in {"#checksum", "#timestamp", "#message"}
    ensures DecodeSpec(data, timestampExpectedUs).Err?
  {
    DecodeSpecOk(data, timestampExpectedUs);
    assert !LineParses(Lines(data)[i]);
  }

  /** A four-field record whose size field is not a u64 makes `decode` fail. */
  lemma RejectsInvalidSize(data: string, timestampExpectedUs: i64, i: nat)
    requires i < |Lines(data)|
    requires |Split(Lines(data)[i], ' ')| == 4
    requires ParseU64(Split(Lines(data)[i], ' ')[1]).None?
    ensures DecodeSpec(data, timestampExpectedUs).Err?
  {
    DecodeSpecOk(data, timestampExpectedUs);
    assert !LineParses(Lines(data)[i]);
  }

  // ---------------------------------------------------------------------
  // Round trip

  /** What survives encoding: a missing modification time is written as 0. */
  function NormalizedInfo(info: FileInfo): FileInfo {
    info.(modifiedTimestampUs := Some(info.modifiedTimestampUs.GetOr(0)))
  }

  function Normalized(v: SnapshotValue): SnapshotValue {
    v.(files := map k | k in v.files :: NormalizedInfo(v.files[k]))
  }

  /** A snapshot whose text form reads back: every file has a checksum
      without spaces or newlines, and no path or message ends in '\r'
      (which `str::lines` would strip). */
  predicate Encodable(v: SnapshotValue) {
    (forall k :: k in v.files ==>
      v.files[k].checksum.Some? && ' ' !in v.files[k].checksum.value
      && '\n' !in v.files[k].checksum.value && !EndsWithCR(k))
    && (v.message.Some? ==> !EndsWithCR(v.message.value))
  }

  /** `decode(encode(s, t), t)` gives back `s`, with absent modification
      times read back as 0. */
  lemma RoundTrip(v: SnapshotValue, timestampUs: i64)
    requires Encodable(v)
    ensures EncodeSpec(v, timestampUs).Ok?
    ensures DecodeSpec(EncodeSpec(v, timestampUs).value, timestampUs) == Ok(Normalized(v))
  {
    var keys := EncodedLines(v, timestampUs);
    var header := HeaderLines(v, timestampUs);
    var records := RecordLines(v.files, keys);
    DecodeFromAppend(INITIAL_STATE, header, records);
    var st := DecodeState(map[], ToStr(v.checksumFunction), v.message, timestampUs);
    DecodeHeader(v, timestampUs);
    DecodeRecords(st, v.files, keys);
    NormalizedAll(v, keys);
    var decoded := DecodeState(Normalized(v).files, ToStr(v.checksumFunction), v.message, timestampUs);
    assert DecodeLines(Lines(EncodeSpec(v, timestampUs).value)) == Ok(decoded);
    FromStrToStr(v.checksumFunction);
  }

  lemma NormalizedAll(v: SnapshotValue, keys: seq<string>)
    requires forall k :: k in v.files <==> k in keys
    requires forall i :: 0 <= i < |keys| ==> keys[i] in v.files
    ensures NormalizedOver(map[], v.files, keys) == Normalized(v).files
  {
    NormalizedOverKeys(map[], v.files, keys);
  }

  /** The encoded text of an encodable snapshot, split back into lines. */
  lemma EncodedLines(v: SnapshotValue, timestampUs: i64) returns (keys: seq<string>)
    requires Encodable(v)
    ensures keys == SortedKeys(v.files.Keys)
    ensures forall k :: k in v.files <==> k in keys
    ensures forall i :: 0 <= i < |keys| ==> keys[i] in v.files
    ensures EncodeSpec(v, timestampUs).Ok?
    ensures Lines(EncodeSpec(v, timestampUs).value) == HeaderLines(v, timestampUs) + RecordLines(v.files, keys)
  {
    SortedKeysSpec(v.files.Keys);
    keys := SortedKeys(v.files.Keys);
    var header := HeaderLines(v, timestampUs);
    var records := RecordLines(v.files, keys);
    var ls := header + records;
    assert EncodeSpec(v, timestampUs) == Ok(JoinLines(ls));
    forall j | 0 <= j < |ls| ensures '\n' !in ls[j] && !EndsWithCR(ls[j]) {
      if j < |header| {
        HeaderLineClean(v, timestampUs, j);
      } else {
        RecordLinesClean(v.files, keys, j - |header|);
      }
    }
    LinesJoinLines(ls);
  }

  lemma {:induction false} DecodeFromAppend(st: DecodeState, a: seq<string>, b: seq<string>)
    ensures DecodeFrom(st, a + b) ==
      if DecodeFrom(st, a).Err? then DecodeFrom(st, a) else DecodeFrom(DecodeFrom(st, a).value, b)
    decreases |b|
  {
    if b == [] {
      assert a + b == a;
    } else {
      assert (a + b)[..|a + b| - 1] == a + b[..|b| - 1];
      DecodeFromAppend(st, a, b[..|b| - 1]);
    }
  }

  lemma AllDigitsClean(s: string)
    requires AllDigits(s)
    ensures ' ' !in s && '\n' !in s && !EndsWithCR(s) && '-' !in s
  {
    forall i | 0 <= i < |s| ensures s[i] != ' ' && s[i] != '\n' && s[i] != '-' && s[i] != '\r' {
      assert IsDigit(s[i]);
    }
  }

  lemma SignedDecimalClean(i: int)
    ensures ' ' !in SignedDecimal(i) && '\n' !in SignedDecimal(i) && !EndsWithCR(SignedDecimal(i))
  {
    AllDigitsClean(Decimal(if i < 0 then -i else i));
  }

  lemma EndsWithCRAppend(a: string, b: string)
    ensures EndsWithCR(a + b) == if b == [] then EndsWithCR(a) else EndsWithCR(b)
  {
    if b == [] {
      assert a + b == a;
    }
  }

  /** A header line is clean when its tag and its value are. */
  lemma TaggedClean(tag: string, value: string)
    requires '\n' !in tag && !EndsWithCR(tag)
    requires '\n' !in value && !EndsWithCR(value)
    ensures '\n' !in tag + value && !EndsWithCR(tag + value)
  {
    EndsWithCRAppend(tag, value);
  }

  lemma HeaderLineClean(v: SnapshotValue, timestampUs: i64, j: nat)
    requires Encodable(v)
    requires j < |HeaderLines(v, timestampUs)|
    ensures '\n' !in HeaderLines(v, timestampUs)[j] && !EndsWithCR(HeaderLines(v, timestampUs)[j])
  {
    var line := HeaderLines(v, timestampUs)[j];
    if j == 0 {
      ChecksumLineClean(v.checksumFunction);
    } else if j == 1 {
      TimestampLineClean(timestampUs);
    } else {
      MessageLineClean(v.message.value);
    }
  }

  lemma ChecksumLineClean(f: ChecksumFunction)
    ensures '\n' !in "#checksum " + ToStr(f) && !EndsWithCR("#checksum " + ToStr(f))
  {
    assert '\n' !in ToStr(f) && !EndsWithCR(ToStr(f));
    TaggedClean("#checksum ", ToStr(f));
  }

  lemma TimestampLineClean(timestampUs: i64)
    ensures var line := "#timestamp " + SignedDecimal(timestampUs as int);
      '\n' !in line && !EndsWithCR(line)
  {
    SignedDecimalClean(timestampUs as int);
    TaggedClean("#timestamp ", SignedDecimal(timestampUs as int));
  }

  lemma MessageLineClean(m: string)
    requires !EndsWithCR(m)
    ensures '\n' !in "#message " + Escape(m) && !EndsWithCR("#message " + Escape(m))
  {
    EscapeHasNoSeparators(m);
    EscapeLastChar(m);
    TaggedClean("#message ", Escape(m));
  }

  lemma RecordLineClean(path: string, info: FileInfo)
    requires info.checksum.Some? && '\n' !in info.checksum.value && !EndsWithCR(path)
    ensures '\n' !in RecordLine(path, info) && !EndsWithCR(RecordLine(path, info))
  {
    var cs := info.checksum.value;
    var d := Decimal(info.sizeBytes as nat);
    var sd := SignedDecimal(info.modifiedTimestampUs.GetOr(0) as int);
    AllDigitsClean(d);
    SignedDecimalClean(info.modifiedTimestampUs.GetOr(0) as int);
    EscapeHasNoSeparators(path);
    EscapeLastChar(path);
    var front := cs + " " + d + " " + sd + " ";
    assert RecordLine(path, info) == front + Escape(path);
    EndsWithCRAppend(front, Escape(path));
    EndsWithCRAppend(cs + " " + d + " " + sd, " ");
  }

  lemma {:induction false} RecordLinesClean(files: FileMap, ks: seq<string>, j: nat)
    requires forall i :: 0 <= i < |ks| ==> ks[i] in files
    requires forall k :: k in files ==>
      files[k].checksum.Some? && '\n' !in files[k].checksum.value && !EndsWithCR(k)
    requires j < |RecordLines(files, ks)|
    ensures '\n' !in RecordLines(files, ks)[j] && !EndsWithCR(RecordLines(files, ks)[j])
    decreases |ks|
  {
    RecordLinesLength(files, ks);
    var init := ks[..|ks| - 1];
    RecordLinesLength(files, init);
    if j < |ks| - 1 {
      RecordLinesClean(files, init, j);
    } else {
      var k := ks[|ks| - 1];
      RecordLineClean(k, files[k]);
    }
  }

  lemma {:induction false} RecordLinesLength(files: FileMap, ks: seq<string>)
    requires forall i :: 0 <= i < |ks| ==> ks[i] in files
    ensures |RecordLines(files, ks)| == |ks|
    decreases |ks|
  {
    if ks != [] {
      RecordLinesLength(files, ks[..|ks| - 1]);
    }
  }

  /** Splitting a header line at its one space. */
  lemma SplitHeader(tag: string, value: string)
    requires ' ' !in tag && ' ' !in value
    ensures Split(tag + " " + value, ' ') == [tag, value]
  {
    assert Join([tag, value], ' ') == tag + " " + value by {
      assert [tag, value][1..] == [value];
    }
    SplitJoin([tag, value], ' ');
  }

  lemma StepChecksumHeader(st: DecodeState, f: ChecksumFunction)
    ensures Step(st, "#checksum " + ToStr(f)) == Ok(st.(checksumFunction := ToStr(f)))
  {
    assert ' ' !in ToStr(f);
    assert "#checksum " + ToStr(f) == "#checksum" + " " + ToStr(f);
    SplitHeader("#checksum", ToStr(f));
  }

  lemma StepTimestampHeader(st: DecodeState, t: i64)
    ensures Step(st, "#timestamp " + SignedDecimal(t as int)) == Ok(st.(timestampUs := t))
  {
    SignedDecimalClean(t as int);
    assert "#timestamp " + SignedDecimal(t as int) == "#timestamp" + " " + SignedDecimal(t as int);
    SplitHeader("#timestamp", SignedDecimal(t as int));
    ParseI64SignedDecimal(t);
  }

  lemma StepMessageHeader(st: DecodeState, m: string)
    ensures Step(st, "#message " + Escape(m)) == Ok(st.(message := Some(m)))
  {
    EscapeHasNoSeparators(m);
    assert "#message " + Escape(m) == "#message" + " " + Escape(m);
    SplitHeader("#message", Escape(m));
    UnescapeEscape(m);
  }

  lemma DecodeHeader(v: SnapshotValue, timestampUs: i64)
    ensures DecodeFrom(INITIAL_STATE, HeaderLines(v, timestampUs))
      == Ok(DecodeState(map[], ToStr(v.checksumFunction), v.message, timestampUs))
  {
    var h := HeaderLines(v, timestampUs);
    var s1 := INITIAL_STATE.(checksumFunction := ToStr(v.checksumFunction));
    var s2 := s1.(timestampUs := timestampUs);
    StepChecksumHeader(INITIAL_STATE, v.checksumFunction);
    StepTimestampHeader(s1, timestampUs);
    assert h[..1][..0] == [];
    assert DecodeFrom(INITIAL_STATE, h[..1]) == Ok(s1);
    assert h[..2][..1] == h[..1];
    assert DecodeFrom(INITIAL_STATE, h[..2]) == Ok(s2);
    if v.message.Some? {
      StepMessageHeader(s2, v.message.value);
      assert h[..3][..2] == h[..2] && h[..3] == h;
    } else {
      assert h[..2] == h;
    }
  }

  /** The decoded files after the record lines of `ks`: each record in turn
      replaces the one of its path. */
  function NormalizedOver(base: FileMap, files: FileMap, ks: seq<string>): FileMap
    requires forall i :: 0 <= i < |ks| ==> ks[i] in files
  {
    if ks == [] then base
    else NormalizedOver(base, files, ks[..|ks| - 1])[ks[|ks| - 1] := NormalizedInfo(files[ks[|ks| - 1]])]
  }

  lemma {:induction false} NormalizedOverKeys(base: FileMap, files: FileMap, ks: seq<string>)
    requires forall i :: 0 <= i < |ks| ==> ks[i] in files
    ensures forall k :: k in NormalizedOver(base, files, ks) <==> k in base || k in ks
    ensures forall k :: k in ks ==> NormalizedOver(base, files, ks)[k] == NormalizedInfo(files[k])
    decreases |ks|
  {
    if ks != [] {
      var init := ks[..|ks| - 1];
      NormalizedOverKeys(base, files, init);
      assert ks == init + [ks[|ks| - 1]];
    }
  }

  lemma JoinFour(a: string, b: string, c: string, d: string)
    ensures Join([a, b, c, d], ' ') == a + " " + b + " " + c + " " + d
  {
    var fields := [a, b, c, d];
    assert fields[1..] == [b, c, d] && fields[1..][1..] == [c, d] && fields[1..][1..][1..] == [d];
    assert Join([c, d], ' ') == c + [' '] + d;
  }

  /** A record line splits back into its four fields. */
  lemma RecordLineFields(path: string, info: FileInfo)
    requires info.checksum.Some? && ' ' !in info.checksum.value
    ensures Split(RecordLine(path, info), ' ') ==
      [info.checksum.value, Decimal(info.sizeBytes as nat),
       SignedDecimal(info.modifiedTimestampUs.GetOr(0) as int), Escape(path)]
  {
    var fields := [info.checksum.value, Decimal(info.sizeBytes as nat),
                   SignedDecimal(info.modifiedTimestampUs.GetOr(0) as int), Escape(path)];
    AllDigitsClean(fields[1]);
    SignedDecimalClean(info.modifiedTimestampUs.GetOr(0) as int);
    EscapeHasNoSeparators(path);
    JoinFour(fields[0], fields[1], fields[2], fields[3]);
    SplitJoin(fields, ' ');
  }

  lemma RecordStep(st: DecodeState, path: string, info: FileInfo)
    requires info.checksum.Some? && ' ' !in info.checksum.value
    ensures Step(st, RecordLine(path, info)) == Ok(st.(files := st.files[path := NormalizedInfo(info)]))
  {
    RecordLineFields(path, info);
    UnescapeEscape(path);
    ParseU64Decimal(info.sizeBytes);
    ParseI64SignedDecimal(info.modifiedTimestampUs.GetOr(0));
  }

  lemma {:induction false} DecodeRecords(st: DecodeState, files: FileMap, ks: seq<string>)
    requires forall i :: 0 <= i < |ks| ==> ks[i] in files
    requires forall k :: k in files ==> files[k].checksum.Some? && ' ' !in files[k].checksum.value
    ensures DecodeFrom(st, RecordLines(files, ks)) == Ok(st.(files := NormalizedOver(st.files, files, ks)))
    decreases |ks|
  {
    if ks != [] {
      var init := ks[..|ks| - 1];
      var k := ks[|ks| - 1];
      DecodeRecords(st, files, init);
      DecodeFromAppend(st, RecordLines(files, init), [RecordLine(k, files[k])]);
      var s := st.(files := NormalizedOver(st.files, files, init));
      RecordStep(s, k, files[k]);
      assert [RecordLine(k, files[k])][..0] == [];
    }
  }
}
