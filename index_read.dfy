/** index_read.cc: reading an index file of the C++ tool. Every line is a
    record: the path, the size and then the checksums, separated by single
    spaces, each field read by a cursor that moves through the line. A
    field may escape a space, a backslash or a newline with a backslash.
    The file is given as its list of lines. */
module IndexRead {
  import opened Wrappers
  import opened Text
  import opened Hex
  import opened ChecksumCodec
  import opened IndexRecords

  const INVALID_RECORD := "invalid index record"
  const INVALID_ESCAPE := "invalid escape sequence"
  /** The message of the exceptions `std::stoull` throws. */
  const STOULL := "stoull"
  /** The message of the exception `std::string::substr` throws for a start
      past the end. */
  const SUBSTR_OUT_OF_RANGE := "basic_string::substr"

  // ---------------------------------------------------------------------
  // Fields

  /** The field loop of `index_read_record_field` from position `pos` with
      the escape flag `escape` and the characters `acc` read so far: the
      field and the position after it. */
  function Scan(input: string, pos: nat, escape: bool, acc: string): (r: Result<(string, nat)>)
    requires pos <= |input|
    ensures r.Ok? ==> pos <= r.value.1 <= |input| && (pos < |input| ==> pos < r.value.1)
    decreases |input| - pos
  {
    if pos == |input| then Ok((acc, pos))
    else
      var c := input[pos];
      if escape then
        if c == ' ' then Scan(input, pos + 1, false, acc + [' '])
        else if c == '\\' then Scan(input, pos + 1, false, acc + ['\\'])
        else if c == 'n' then Scan(input, pos + 1, false, acc + ['\n'])
        else Err(INVALID_ESCAPE)
      else if c == ' ' then Ok((acc, pos + 1))
      else if c == '\\' then Scan(input, pos + 1, true, acc)
      else Scan(input, pos + 1, false, acc + [c])
  }

  /** What `index_read_record_field` yields at `cursor`: nothing is left to
      read at or past the end; otherwise the field and a cursor that has
      moved forward and stays within the line. */
  function FieldAt(input: string, cursor: nat): (r: Result<(string, nat)>)
    ensures cursor >= |input| ==> r == Err(INVALID_RECORD)
    ensures r.Ok? ==> cursor < r.value.1 <= |input|
  {
    if cursor >= |input| then Err(INVALID_RECORD)
    else Scan(input, cursor, false, "")
  }

  /** `index_read_record_field`: reads from `cursor` up to the first
      unescaped space, which is consumed, or to the end of the line. */
  method ReadField(input: string, cursor: nat) returns (r: Result<(string, nat)>)
    ensures r == FieldAt(input, cursor)
  {
    var output := "";
    if cursor >= |input| {
      return Err(INVALID_RECORD);
    }
    var inputCursor := cursor;
    var inputEscape := false;
    while inputCursor < |input|
      invariant cursor <= inputCursor <= |input|
      invariant Scan(input, inputCursor, inputEscape, output) == FieldAt(input, cursor)
      decreases |input| - inputCursor
    {
      var inputChar := input[inputCursor];
      inputCursor := inputCursor + 1;
      if inputEscape {
        if inputChar == ' ' {
          output := output + [' '];
        } else if inputChar == '\\' {
          output := output + ['\\'];
        } else if inputChar == 'n' {
          output := output + ['\n'];
        } else {
          return Err(INVALID_ESCAPE);
        }
        inputEscape := false;
      } else if inputChar == ' ' {
        return Ok((output, inputCursor));
      } else if inputChar == '\\' {
        inputEscape := true;
      } else {
        output := output + [inputChar];
      }
    }
    return Ok((output, inputCursor));
  }

  /** How a writer escapes one character of a field. */
  function EscapeChar(c: char): string {
    if c == ' ' then "\\ "
    else if c == '\\' then "\\\\"
    else if c == '\n' then "\\n"
    else [c]
  }

  /** A field as a writer puts it on an index line. */
  function EscapeField(s: string): (e: string)
    ensures |e| >= |s|
  {
    if s == [] then []
    else EscapeChar(s[0]) + EscapeField(s[1..])
  }

  /** A field without a space, backslash or newline is written as it is. */
  predicate Plain(s: string) {
    forall k :: 0 <= k < |s| ==> s[k] != ' ' && s[k] != '\\' && s[k] != '\n'
  }

  lemma {:induction false} EscapePlain(s: string)
    requires Plain(s)
    ensures EscapeField(s) == s
  {
    if s != [] {
      EscapePlain(s[1..]);
    }
  }

  /** Reading over one escaped character yields the character. */
  lemma ScanEscapedChar(input: string, pos: nat, c: char, acc: string)
    requires pos + |EscapeChar(c)| <= |input|
    requires input[pos..pos + |EscapeChar(c)|] == EscapeChar(c)
    ensures Scan(input, pos, false, acc) == Scan(input, pos + |EscapeChar(c)|, false, acc + [c])
  {
    if c == ' ' || c == '\\' || c == '\n' {
      assert input[pos] == '\\' && input[pos + 1] == EscapeChar(c)[1];
    } else {
      assert input[pos] == c;
    }
  }

  /** A slice of `input` holding `e + rest` holds `e`, then `rest`. */
  lemma SliceSplit(input: string, pos: nat, e: string, rest: string)
    requires pos + |e| + |rest| <= |input|
    requires input[pos..pos + |e| + |rest|] == e + rest
    ensures input[pos..pos + |e|] == e
    ensures input[pos + |e|..pos + |e| + |rest|] == rest
  {
    var whole := input[pos..pos + |e| + |rest|];
    assert input[pos..pos + |e|] == whole[..|e|];
    assert input[pos + |e|..pos + |e| + |rest|] == whole[|e|..];
  }

  /** Reading over an escaped field, which ends at `end`, yields the
      field. */
  lemma {:induction false} ScanEscaped(input: string, pos: nat, s: string, acc: string, end: nat)
    requires end == pos + |EscapeField(s)| <= |input|
    requires input[pos..end] == EscapeField(s)
    ensures Scan(input, pos, false, acc) == Scan(input, end, false, acc + s)
    decreases |s|
  {
    if s == [] {
      assert acc + s == acc;
    } else {
      var e := EscapeChar(s[0]);
      var rest := EscapeField(s[1..]);
      var acc' := acc + [s[0]];
      assert acc' + s[1..] == acc + s;
      assert EscapeField(s) == e + rest;
      SliceSplit(input, pos, e, rest);
      ScanEscapedChar(input, pos, s[0], acc);
      ScanEscaped(input, pos + |e|, s[1..], acc', end);
    }
  }

  /** A written field followed by a space reads back as the field, and the
      cursor lands just past the space. */
  lemma FieldSpaceRoundTrip(pre: string, s: string, rest: string)
    ensures FieldAt(pre + EscapeField(s) + " " + rest, |pre|) == Ok((s, |pre| + |EscapeField(s)| + 1))
  {
    var e := EscapeField(s);
    var line := pre + e + " " + rest;
    assert line[|pre|..|pre| + |e|] == e;
    assert line[|pre| + |e|] == ' ';
    assert "" + s == s;
    ScanEscaped(line, |pre|, s, "", |pre| + |e|);
  }

  /** A written field that ends the line reads back as the field, and the
      cursor lands at the end. */
  lemma FieldEndRoundTrip(pre: string, s: string)
    requires s != []
    ensures FieldAt(pre + EscapeField(s), |pre|) == Ok((s, |pre| + |EscapeField(s)|))
  {
    var e := EscapeField(s);
    var line := pre + e;
    assert line[|pre|..|pre| + |e|] == e;
    assert "" + s == s;
    ScanEscaped(line, |pre|, s, "", |pre| + |e|);
  }

  /** A written field followed by a space, or ending the line, reads back
      as the field, and the cursor lands just past it. */
  lemma FieldRoundTrip(pre: string, s: string, rest: string)
    ensures FieldAt(pre + EscapeField(s) + " " + rest, |pre|) == Ok((s, |pre| + |EscapeField(s)| + 1))
    ensures s != [] ==> FieldAt(pre + EscapeField(s), |pre|) == Ok((s, |pre| + |EscapeField(s)|))
  {
    FieldSpaceRoundTrip(pre, s, rest);
    if s != [] {
      FieldEndRoundTrip(pre, s);
    }
  }

  /** An empty line has no field; a trailing backslash is dropped; an
      unknown escape fails. */
  lemma FieldEdgeCases()
    ensures FieldAt("", 0) == Err(INVALID_RECORD)
    ensures FieldAt("ab\\", 0) == Ok(("ab", 3))
    ensures FieldAt("a\\tb", 0) == Err(INVALID_ESCAPE)
    ensures FieldAt("a\\ b c", 0) == Ok(("a b", 5))
  {
    var k := "ab\\";
    assert k[0] == 'a' && k[1] == 'b' && k[2] == '\\';
    assert Scan(k, 3, true, "ab") == Ok(("ab", 3));
    assert Scan(k, 2, false, "ab") == Ok(("ab", 3));
    assert "a" + ['b'] == "ab";
    assert Scan(k, 1, false, "a") == Ok(("ab", 3));
    assert "" + ['a'] == "a";
    var t := "a\\tb";
    assert t[0] == 'a' && t[1] == '\\' && t[2] == 't';
    assert Scan(t, 2, true, "a") == Err(INVALID_ESCAPE);
    assert Scan(t, 1, false, "a") == Err(INVALID_ESCAPE);
    var l := "a\\ b c";
    assert l[0] == 'a' && l[1] == '\\' && l[2] == ' ' && l[3] == 'b' && l[4] == ' ';
    assert Scan(l, 4, false, "a b") == Ok(("a b", 5));
    assert "a " + ['b'] == "a b";
    assert Scan(l, 3, false, "a ") == Ok(("a b", 5));
    assert "a" + [' '] == "a ";
    assert Scan(l, 2, true, "a") == Ok(("a b", 5));
    assert Scan(l, 1, false, "a") == Ok(("a b", 5));
    assert "" + ['a'] == "a";
  }

  // ---------------------------------------------------------------------
  // Sizes

  /** The white space `std::isspace` knows in the "C" locale. */
  predicate IsSpace(c: char) {
    c == ' ' || c == '\t' || c == '\n' || c as int == 11 || c as int == 12 || c == '\r'
  }

  /** The number of leading white-space characters. */
  function SpacePrefix(s: string): (n: nat)
    ensures n <= |s|
    ensures n < |s| ==> !IsSpace(s[n])
  {
    if s == [] || !IsSpace(s[0]) then 0 else 1 + SpacePrefix(s[1..])
  }

  /** The number of leading decimal digits. */
  function DigitPrefix(s: string): (n: nat)
    ensures n <= |s| && AllDigits(s[..n])
    ensures n < |s| ==> !IsDigit(s[n])
  {
    if s == [] || !IsDigit(s[0]) then 0
    else
      var n := 1 + DigitPrefix(s[1..]);
      assert s[..n] == [s[0]] + s[1..][..n - 1];
      n
  }

  /** `std::stoull(s)` in base 10: leading white space, an optional sign,
      then as many digits as there are, at least one; the rest is ignored.
      A magnitude beyond 64 bits is out of range, and a minus sign negates
      modulo 2^64. */
  function Stoull(s: string): Result<u64> {
    var rest := s[SpacePrefix(s)..];
    var negative := |rest| > 0 && rest[0] == '-';
    var unsigned := if |rest| > 0 && (rest[0] == '+' || rest[0] == '-') then rest[1..] else rest;
    var digits := unsigned[..DigitPrefix(unsigned)];
    if |digits| == 0 then Err(STOULL)
    else if DigitsValue(digits) >= U64_LIMIT then Err(STOULL)
    else if negative then Ok(((U64_LIMIT - DigitsValue(digits)) % U64_LIMIT) as u64)
    else Ok(DigitsValue(digits) as u64)
  }

  lemma {:induction false} DigitPrefixAll(s: string)
    requires AllDigits(s)
    ensures DigitPrefix(s) == |s|
  {
    if s != [] {
      DigitPrefixAll(s[1..]);
    }
  }

  /** A size written in decimal reads back as itself. */
  lemma StoullDecimal(n: u64)
    ensures Stoull(Decimal(n as nat)) == Ok(n)
  {
    var s := Decimal(n as nat);
    assert IsDigit(s[0]);
    assert SpacePrefix(s) == 0;
    DigitPrefixAll(s);
    assert s[..|s|] == s;
    DecimalValue(n as nat);
  }

    /** Digits followed by other characters: the digits are the value. */
  lemma StoullTrailing()
    ensures Stoull("12ab") == Ok(12)
  {
    assert "12ab"[..2] == "12";
    assert DigitPrefix("12ab") == 2 by {
      assert "12ab"[1..] == "2ab";
      assert "2ab"[1..] == "ab";
    }
    assert DigitsValue("12") == 12 by {
      assert "12"[..1] == "1";
    }
  }

  /** A minus sign negates modulo 2^64. */
  lemma StoullNegative()
    ensures Stoull("-1") == Ok(0xFFFF_FFFF_FFFF_FFFF)
  {
    assert "-1"[1..] == "1";
    assert DigitPrefix("1") == 1 by {
      assert "1"[1..] == "";
    }
    assert "1"[..1] == "1";
  }

  /** No digits at all is an error. */
  lemma StoullNoDigits()
    ensures Stoull("ab") == Err(STOULL)
    ensures Stoull("") == Err(STOULL)
  {
  }

  // ---------------------------------------------------------------------
  // Checksums

  /** What `index_read_record_checksum` makes of a field: the part before
      the first ':' is the type, the part after it the value. Without a ':'
      the value starts past the end of the field, which fails. */
  function ChecksumOf(field: string): (r: Result<Checksum>)
    ensures r.Ok? ==> Valid(r.value)
  {
    var typeName := field[..IndexOf(field, ':')];
    if |typeName| + 1 > |field| then Err(SUBSTR_OUT_OF_RANGE)
    else
      var value := field[|typeName| + 1..];
      var t :- ReadType(typeName);
      var v :- DecodeValue(value, t);
      Ok(Checksum(t, v))
  }

  /** How a writer puts a checksum on an index line. */
  function WriteChecksumField(c: Checksum): string {
    TypeName(c.typ) + ":" + HexString(c.value)
  }

  /** A written checksum reads back as itself, and its field needs no
      escaping. */
  lemma ChecksumRoundTrip(c: Checksum)
    requires Valid(c)
    ensures ChecksumOf(WriteChecksumField(c)) == Ok(c)
    ensures Plain(WriteChecksumField(c))
  {
    var name := TypeName(c.typ);
    var field := WriteChecksumField(c);
    HexStringLower(c.value);
    assert field[|name|] == ':';
    assert IndexOf(field, ':') == |name|;
    assert field[..|name|] == name;
    assert field[|name| + 1..] == HexString(c.value);
    ValueRoundTrip(c.value, "", c.typ);
  }

  /** `index_read_record_checksum`: the next field as a checksum. */
  method ReadChecksum(input: string, cursor: nat) returns (r: Result<(Checksum, nat)>)
    ensures FieldAt(input, cursor).Err? ==> r == Err(FieldAt(input, cursor).msg)
    ensures FieldAt(input, cursor).Ok? ==>
      match ChecksumOf(FieldAt(input, cursor).value.0)
      case Err(e) => r == Err(e)
      case Ok(c) => r == Ok((c, FieldAt(input, cursor).value.1))
  {
    var field := ReadField(input, cursor);
    if field.Err? {
      return Err(field.msg);
    }
    var checksumSpec := field.value.0;
    var checksumType := checksumSpec[..IndexOf(checksumSpec, ':')];
    if |checksumType| + 1 > |checksumSpec| {
      return Err(SUBSTR_OUT_OF_RANGE);
    }
    var checksumValue := checksumSpec[|checksumType| + 1..];
    var t := ReadType(checksumType);
    if t.Err? {
      return Err(t.msg);
    }
    var v := ReadValue(checksumValue, t.value);
    if v.Err? {
      return Err(v.msg);
    }
    return Ok((Checksum(t.value, v.value), field.value.1));
  }

  // ---------------------------------------------------------------------
  // Records

  /** The checksum loop of `index_read_record` from `cursor` to the end of
      the line, appending to `acc`. */
  function ChecksumsFrom(input: string, cursor: nat, acc: seq<Checksum>): Result<seq<Checksum>>
    decreases |input| - cursor
  {
    if cursor >= |input| then Ok(acc)
    else
      var f :- FieldAt(input, cursor);
      var c :- ChecksumOf(f.0);
      ChecksumsFrom(input, f.1, acc + [c])
  }

  /** What `index_read_record` reads from one line. */
  function RecordOf(line: string): Result<IndexRecord> {
    var p :- FieldAt(line, 0);
    var s :- FieldAt(line, p.1);
    var size :- Stoull(s.0);
    var checksums :- ChecksumsFrom(line, s.1, []);
    Ok(IndexRecord(p.0, size, checksums))
  }

  /** How a writer puts checksums on an index line: separated by single
      spaces. */
  function WriteChecksums(cs: seq<Checksum>): string {
    if cs == [] then ""
    else if |cs| == 1 then WriteChecksumField(cs[0])
    else WriteChecksumField(cs[0]) + " " + WriteChecksums(cs[1..])
  }

  /** How a writer puts a record on an index line. */
  function WriteRecord(r: IndexRecord): string {
    EscapeField(r.path) + " " + Decimal(r.size as nat)
      + (if r.checksums == [] then "" else " " + WriteChecksums(r.checksums))
  }

  /** One turn of the checksum loop. */
  lemma ChecksumsStep(input: string, cursor: nat, acc: seq<Checksum>, field: string, next: nat, c: Checksum)
    requires FieldAt(input, cursor) == Ok((field, next))
    requires ChecksumOf(field) == Ok(c)
    ensures ChecksumsFrom(input, cursor, acc) == ChecksumsFrom(input, next, acc + [c])
  {
  }

  /** The last written checksum of a line. */
  lemma LastChecksumStep(line: string, pre: string, c: Checksum, acc: seq<Checksum>)
    requires Valid(c) && line == pre + WriteChecksumField(c)
    ensures ChecksumsFrom(line, |pre|, acc) == Ok(acc + [c])
  {
    var f := WriteChecksumField(c);
    ChecksumRoundTrip(c);
    PlainFieldRoundTrip(pre, f, "");
    ChecksumsStep(line, |pre|, acc, f, |line|, c);
  }

  /** A written checksum followed by a space and more checksums. */
  lemma NextChecksumStep(line: string, pre: string, c: Checksum, rest: string, acc: seq<Checksum>, next: nat)
    requires Valid(c) && line == pre + WriteChecksumField(c) + " " + rest
    requires next == |pre| + |WriteChecksumField(c)| + 1
    ensures ChecksumsFrom(line, |pre|, acc) == ChecksumsFrom(line, next, acc + [c])
  {
    var f := WriteChecksumField(c);
    ChecksumRoundTrip(c);
    PlainFieldRoundTrip(pre, f, rest);
    ChecksumsStep(line, |pre|, acc, f, next, c);
  }

  /** The first of several written checksums, read off the line. */
  lemma ChecksumsCons(pre: string, cs: seq<Checksum>, acc: seq<Checksum>)
    requires |cs| >= 2 && Valid(cs[0])
    ensures ChecksumsFrom(pre + WriteChecksums(cs), |pre|, acc)
         == ChecksumsFrom(pre + WriteChecksumField(cs[0]) + " " + WriteChecksums(cs[1..]),
                          |pre + WriteChecksumField(cs[0]) + " "|, acc + [cs[0]])
  {
    var line := pre + WriteChecksums(cs);
    var pre' := pre + WriteChecksumField(cs[0]) + " ";
    var rest := WriteChecksums(cs[1..]);
    assert line == pre' + rest;
    NextChecksumStep(line, pre, cs[0], rest, acc, |pre'|);
  }

  /** Written checksums, after whatever precedes them, read back in order. */
  lemma {:induction false} ChecksumsRoundTrip(pre: string, cs: seq<Checksum>, acc: seq<Checksum>)
    requires forall i :: 0 <= i < |cs| ==> Valid(cs[i])
    ensures ChecksumsFrom(pre + WriteChecksums(cs), |pre|, acc) == Ok(acc + cs)
    decreases |cs|
  {
    if cs == [] {
      assert pre + WriteChecksums(cs) == pre;
      assert acc + cs == acc;
    } else if |cs| == 1 {
      assert cs == [cs[0]];
      LastChecksumStep(pre + WriteChecksums(cs), pre, cs[0], acc);
    } else {
      assert acc + [cs[0]] + cs[1..] == acc + cs;
      ChecksumsCons(pre, cs, acc);
      ChecksumsRoundTrip(pre + WriteChecksumField(cs[0]) + " ", cs[1..], acc + [cs[0]]);
    }
  }

  /** A decimal size needs no escaping. */
  lemma DecimalPlain(n: nat)
    ensures Plain(Decimal(n))
  {
    var d := Decimal(n);
    forall k | 0 <= k < |d| ensures d[k] != ' ' && d[k] != '\\' && d[k] != '\n' {
      assert IsDigit(d[k]);
    }
  }

  /** A field that needs no escaping reads back as itself. */
  lemma PlainFieldRoundTrip(pre: string, f: string, rest: string)
    requires Plain(f)
    ensures FieldAt(pre + f + " " + rest, |pre|) == Ok((f, |pre| + |f| + 1))
    ensures f != [] ==> FieldAt(pre + f, |pre|) == Ok((f, |pre| + |f|))
  {
    EscapePlain(f);
    FieldRoundTrip(pre, f, rest);
  }

  /** A line whose fields read one after the other is a record. */
  lemma RecordOfFields(line: string, path: string, afterPath: nat, sizeField: string, afterSize: nat,
                       size: u64, checksums: seq<Checksum>)
    requires FieldAt(line, 0) == Ok((path, afterPath))
    requires FieldAt(line, afterPath) == Ok((sizeField, afterSize))
    requires Stoull(sizeField) == Ok(size)
    requires ChecksumsFrom(line, afterSize, []) == Ok(checksums)
    ensures RecordOf(line) == Ok(IndexRecord(path, size, checksums))
  {
  }

  /** The path field of a written record. */
  lemma PathFieldRoundTrip(path: string, rest: string)
    ensures FieldAt(EscapeField(path) + " " + rest, 0) == Ok((path, |EscapeField(path)| + 1))
  {
    FieldRoundTrip("", path, rest);
    assert "" + EscapeField(path) + " " + rest == EscapeField(path) + " " + rest;
  }

  /** The path field at the start of `line`. */
  lemma PathFieldAt(line: string, path: string, rest: string, next: nat)
    requires line == EscapeField(path) + " " + rest
    requires next == |EscapeField(path)| + 1
    ensures FieldAt(line, 0) == Ok((path, next))
  {
    PathFieldRoundTrip(path, rest);
  }

  /** A written record without checksums reads back as itself. */
  lemma BareRecordRoundTrip(r: IndexRecord)
    requires r.checksums == []
    ensures RecordOf(WriteRecord(r)) == Ok(r)
  {
    var pre := EscapeField(r.path) + " ";
    var d := Decimal(r.size as nat);
    var line := WriteRecord(r);
    assert line == pre + d;
    PathFieldRoundTrip(r.path, d);
    DecimalPlain(r.size as nat);
    StoullDecimal(r.size);
    PlainFieldRoundTrip(pre, d, "");
    assert ChecksumsFrom(line, |line|, []) == Ok([]);
    RecordOfFields(line, r.path, |pre|, d, |line|, r.size, []);
  }

  /** The size field of a written record, at `at` in `line`, followed by
      its checksums. */
  lemma SizeFieldRoundTrip(line: string, pre: string, size: u64, w: string, at: nat, next: nat)
    requires line == pre + Decimal(size as nat) + " " + w
    requires at == |pre| && next == |pre| + |Decimal(size as nat)| + 1
    ensures FieldAt(line, at) == Ok((Decimal(size as nat), next))
    ensures Stoull(Decimal(size as nat)) == Ok(size)
  {
    DecimalPlain(size as nat);
    StoullDecimal(size);
    PlainFieldRoundTrip(pre, Decimal(size as nat), w);
  }

  /** The lengths of the path and size fields with their separators. */
  lemma HeadLength(e: string, d: string)
    ensures |e + " "| == |e| + 1
    ensures |e + " " + d + " "| == |e| + |d| + 2
  {
  }

  /** The checksum fields of a written record, from the end of `pre` to
      the end of the line. */
  lemma ChecksumFieldsRoundTrip(pre: string, cs: seq<Checksum>)
    requires forall i :: 0 <= i < |cs| ==> Valid(cs[i])
    ensures ChecksumsFrom(pre + WriteChecksums(cs), |pre|, []) == Ok(cs)
  {
    var acc: seq<Checksum> := [];
    assert acc + cs == cs;
    ChecksumsRoundTrip(pre, cs, acc);
  }

  /** The checksum fields after the path and size fields, which end at
      `at`. */
  lemma ChecksumsAfterHead(e: string, d: string, cs: seq<Checksum>, at: nat)
    requires forall i :: 0 <= i < |cs| ==> Valid(cs[i])
    requires at == |e| + |d| + 2
    ensures ChecksumsFrom(e + " " + d + " " + WriteChecksums(cs), at, []) == Ok(cs)
  {
    HeadLength(e, d);
    ChecksumFieldsRoundTrip(e + " " + d + " ", cs);
  }

  /** The path and size fields at the start of a written record: the path
      ends at `a`, the size at `b`. */
  lemma RecordLineHead(line: string, path: string, size: u64, rest: string, a: nat, b: nat)
    requires line == EscapeField(path) + " " + Decimal(size as nat) + " " + rest
    requires a == |EscapeField(path)| + 1
    requires b == |EscapeField(path)| + |Decimal(size as nat)| + 2
    ensures FieldAt(line, 0) == Ok((path, a))
    ensures FieldAt(line, a) == Ok((Decimal(size as nat), b))
    ensures Stoull(Decimal(size as nat)) == Ok(size)
  {
    var e, d := EscapeField(path), Decimal(size as nat);
    HeadLength(e, d);
    assert line == e + " " + (d + " " + rest);
    PathFieldAt(line, path, d + " " + rest, a);
    SizeFieldRoundTrip(line, e + " ", size, rest, a, b);
  }

  /** A line made of an escaped path, a decimal size and written
      checksums reads back as that record. */
  lemma RecordLineRoundTrip(line: string, path: string, size: u64, cs: seq<Checksum>)
    requires forall i :: 0 <= i < |cs| ==> Valid(cs[i])
    requires line == EscapeField(path) + " " + Decimal(size as nat) + " " + WriteChecksums(cs)
    ensures RecordOf(line) == Ok(IndexRecord(path, size, cs))
  {
    var e, d := EscapeField(path), Decimal(size as nat);
    var a, b := |e| + 1, |e| + |d| + 2;
    ChecksumsAfterHead(e, d, cs, b);
    RecordLineHead(line, path, size, WriteChecksums(cs), a, b);
    RecordOfFields(line, path, a, d, b, size, cs);
  }

  /** A written record with checksums reads back as itself. */
  lemma FullRecordRoundTrip(r: IndexRecord)
    requires r.checksums != []
    requires forall i :: 0 <= i < |r.checksums| ==> Valid(r.checksums[i])
    ensures RecordOf(WriteRecord(r)) == Ok(r)
  {
    var line := EscapeField(r.path) + " " + Decimal(r.size as nat) + " " + WriteChecksums(r.checksums);
    assert WriteRecord(r) == line;
    RecordLineRoundTrip(line, r.path, r.size, r.checksums);
  }

  /** A written record reads back as itself: path, size and checksums in
      their order. */
  lemma RecordRoundTrip(r: IndexRecord)
    requires forall i :: 0 <= i < |r.checksums| ==> Valid(r.checksums[i])
    ensures RecordOf(WriteRecord(r)) == Ok(r)
  {
    if r.checksums == [] {
      BareRecordRoundTrip(r);
    } else {
      FullRecordRoundTrip(r);
    }
  }

  /** `index_read_record`: the path, the size, then checksums up to the end
      of the line; the record is added to `index` only when all of it reads. */
  method ReadRecord(line: string, index: Index) returns (r: Result<IndexRecord>)
    modifies index
    ensures r == RecordOf(line)
    ensures r.Ok? ==> index.entries == old(index.entries) + [r.value]
    ensures r.Err? ==> index.entries == old(index.entries)
  {
    var p := ReadField(line, 0);
    if p.Err? {
      return Err(p.msg);
    }
    var s := ReadField(line, p.value.1);
    if s.Err? {
      return Err(s.msg);
    }
    var size := Stoull(s.value.0);
    if size.Err? {
      return Err(size.msg);
    }
    var inputCursor := s.value.1;
    var checksums: seq<Checksum> := [];
    while inputCursor < |line|
      invariant ChecksumsFrom(line, inputCursor, checksums) == ChecksumsFrom(line, s.value.1, [])
      invariant index.entries == old(index.entries)
      decreases |line| - inputCursor
    {
      var c := ReadChecksum(line, inputCursor);
      if c.Err? {
        return Err(c.msg);
      }
      checksums := checksums + [c.value.0];
      inputCursor := c.value.1;
    }
    var record := IndexRecord(p.value.0, size.value, checksums);
    index.Add(record);
    return Ok(record);
  }

  // ---------------------------------------------------------------------
  // Files

  /** The records of a run of parsed lines up to the first failure, and
      that failure's message: the loop of `index_read_records`, which stops
      at the first exception. */
  function Collect(results: seq<Result<IndexRecord>>): (seq<IndexRecord>, Option<string>) {
    if results == [] then ([], None)
    else
      var (rs, err) := Collect(results[..|results| - 1]);
      if err.Some? then (rs, err)
      else match results[|results| - 1]
        case Ok(r) => (rs + [r], None)
        case Err(e) => (rs, Some(e))
  }

  /** Every line of a file, parsed on its own. */
  function Parsed(lines: seq<string>): seq<Result<IndexRecord>> {
    seq(|lines|, i requires 0 <= i < |lines| => RecordOf(lines[i]))
  }

  /** What `index_read_records` makes of the lines of a file. */
  function ReadAll(lines: seq<string>): (seq<IndexRecord>, Option<string>) {
    Collect(Parsed(lines))
  }

  /** Once a line fails, the lines after it change nothing. */
  lemma {:induction false} CollectSticky(results: seq<Result<IndexRecord>>, rest: seq<Result<IndexRecord>>)
    requires Collect(results).1.Some?
    ensures Collect(results + rest) == Collect(results)
    decreases |rest|
  {
    if rest != [] {
      var init := rest[..|rest| - 1];
      CollectSticky(results, init);
      assert (results + rest)[..|results + rest| - 1] == results + init;
    } else {
      assert results + rest == results;
    }
  }

  /** One more line read: its record is added, or its error ends the
      reading of the whole file. */
  lemma CollectNext(results: seq<Result<IndexRecord>>, i: nat)
    requires i < |results| && Collect(results[..i]).1 == None
    ensures results[i].Ok? ==> Collect(results[..i + 1]) == (Collect(results[..i]).0 + [results[i].value], None)
    ensures results[i].Err? ==> Collect(results) == (Collect(results[..i]).0, Some(results[i].msg))
  {
    var upto := results[..i + 1];
    PrefixSplit(results, i);
    if results[i].Err? {
      CollectSticky(upto, results[i + 1..]);
    }
  }

  /** The first `i + 1` results without their last are the first `i`;
      with the rest after them they are all the results. */
  lemma PrefixSplit(results: seq<Result<IndexRecord>>, i: nat)
    requires i < |results|
    ensures results[..i + 1][..i] == results[..i]
    ensures results[..i + 1] + results[i + 1..] == results
  {
  }

  /** The records collected are those of the leading results, in their
      order; the collection ends with no error exactly when every result
      is a record, and otherwise with the error of the first that is not. */
  lemma {:induction false} CollectMeaning(results: seq<Result<IndexRecord>>)
    ensures |Collect(results).0| <= |results|
    ensures forall i :: 0 <= i < |Collect(results).0| ==> results[i] == Ok(Collect(results).0[i])
    ensures Collect(results).1.None? <==> |Collect(results).0| == |results|
    ensures Collect(results).1.Some? ==> results[|Collect(results).0|] == Err(Collect(results).1.value)
    decreases |results|
  {
    if results != [] {
      var init := results[..|results| - 1];
      CollectMeaning(init);
      var (rs, err) := Collect(init);
      forall i | 0 <= i < |rs| ensures results[i] == init[i] {
      }
      if err.Some? {
        assert results[|rs|] == init[|rs|];
      }
    }
  }

  /** The records read from a file are those of its leading lines, in their
      order; the reading ends with no error exactly when every line is a
      record, and otherwise with the error of the first line that is not. */
  lemma ReadAllMeaning(lines: seq<string>)
    ensures |ReadAll(lines).0| <= |lines|
    ensures forall i :: 0 <= i < |ReadAll(lines).0| ==> RecordOf(lines[i]) == Ok(ReadAll(lines).0[i])
    ensures ReadAll(lines).1.None? <==> |ReadAll(lines).0| == |lines|
    ensures ReadAll(lines).1.Some? ==> RecordOf(lines[|ReadAll(lines).0|]) == Err(ReadAll(lines).1.value)
  {
    CollectMeaning(Parsed(lines));
  }

  /** An index file is read without error exactly when every line is a
      record, and then it yields one record per line. */
  lemma ReadAllOk(lines: seq<string>)
    ensures ReadAll(lines).1.None? <==> forall i :: 0 <= i < |lines| ==> RecordOf(lines[i]).Ok?
    ensures ReadAll(lines).1.None? ==>
      |ReadAll(lines).0| == |lines| && forall i :: 0 <= i < |lines| ==> RecordOf(lines[i]) == Ok(ReadAll(lines).0[i])
  {
    ReadAllMeaning(lines);
    if ReadAll(lines).1.Some? {
      var k := |ReadAll(lines).0|;
      assert !RecordOf(lines[k]).Ok?;
    }
  }

  /** Records written one per line read back as those records. */
  lemma WrittenIndexRoundTrip(records: seq<IndexRecord>, lines: seq<string>)
    requires forall i, j :: 0 <= i < |records| && 0 <= j < |records[i].checksums| ==> Valid(records[i].checksums[j])
    requires |lines| == |records| && forall i :: 0 <= i < |lines| ==> lines[i] == WriteRecord(records[i])
    ensures ReadAll(lines).1 == None && ReadAll(lines).0 == records
  {
    forall i | 0 <= i < |lines| ensures RecordOf(lines[i]) == Ok(records[i]) {
      RecordRoundTrip(records[i]);
    }
    ReadAllOk(lines);
    var rs := ReadAll(lines).0;
    assert |rs| == |records|;
    forall i | 0 <= i < |rs| ensures rs[i] == records[i] {
      assert RecordOf(lines[i]) == Ok(rs[i]);
    }
  }

  /** Every checksum the checksum loop reads has the size of its type. */
  lemma {:induction false} ChecksumsFromValid(input: string, cursor: nat, acc: seq<Checksum>)
    requires forall j :: 0 <= j < |acc| ==> Valid(acc[j])
    ensures ChecksumsFrom(input, cursor, acc).Ok? ==>
      forall j :: 0 <= j < |ChecksumsFrom(input, cursor, acc).value| ==> Valid(ChecksumsFrom(input, cursor, acc).value[j])
    decreases |input| - cursor
  {
    if cursor < |input| {
      var f := FieldAt(input, cursor);
      if f.Ok? {
        var c := ChecksumOf(f.value.0);
        if c.Ok? {
          ChecksumsFromValid(input, f.value.1, acc + [c.value]);
        }
      }
    }
  }

  /** A record read from a line holds only checksums of the right size. */
  lemma RecordOfValid(line: string)
    ensures RecordOf(line).Ok? ==> ValidRecord(RecordOf(line).value)
  {
    var p := FieldAt(line, 0);
    if p.Ok? {
      var s := FieldAt(line, p.value.1);
      if s.Ok? {
        ChecksumsFromValid(line, s.value.1, []);
      }
    }
  }

  /** Every record read from a file holds only checksums of the right size. */
  lemma ReadAllValid(lines: seq<string>)
    ensures forall i :: 0 <= i < |ReadAll(lines).0| ==> ValidRecord(ReadAll(lines).0[i])
  {
    ReadAllMeaning(lines);
    forall i | 0 <= i < |ReadAll(lines).0| ensures ValidRecord(ReadAll(lines).0[i]) {
      RecordOfValid(lines[i]);
    }
  }

  /** `index_read_records` and `index_read`: a file that cannot be opened
      fails with its path and leaves the index as it was; otherwise the
      records of its lines are added in order up to the first line that is
      not a record, whose error ends the reading. `file` is `None` for a
      file that cannot be opened. */
  method ReadRecords(path: string, file: Option<seq<string>>, index: Index) returns (err: Option<string>)
    modifies index
    ensures file.None? ==> err == Some(UNABLE_TO_OPEN + path) && index.entries == old(index.entries)
    ensures file.Some? ==>
      err == ReadAll(file.value).1 && index.entries == old(index.entries) + ReadAll(file.value).0
  {
    if file.None? {
      return Some(UNABLE_TO_OPEN + path);
    }
    var lines := file.value;
    ghost var results := Parsed(lines);
    for i := 0 to |lines|
      invariant Collect(results[..i]).1 == None
      invariant index.entries == old(index.entries) + Collect(results[..i]).0
    {
      var r := ReadRecord(lines[i], index);
      assert r == results[i];
      CollectNext(results, i);
      if r.Err? {
        return Some(r.msg);
      }
    }
    assert results[..|lines|] == results;
    return None;
  }
}
