/** cmd_search.cc: the hex codec of the `search` command, the loading of
    an index of SHA-1 checksums (one per line, as the first 40 hex digits)
    and the hit/miss answer for every path read from standard input. The
    index file and standard input are given as lists of lines, the files
    to check as a map from path to contents, and SHA-1 as a parameter. */
module Search {
  import opened Wrappers
  import opened Text
  import opened Hex
  import opened ChecksumCodec
  import ChecksumFunction

  const INVALID_HEX := "invalid hex string"
  const INVALID_HEX_INPUT := "invalid input"
  const INVALID_INDEX_FILE := "invalid index file: "
  const INVALID_INDEX_LINE := "invalid index line: "
  const NEED_INDEX := "need an index (--index)"

  /** The number of hex digits of a checksum on an index line. */
  const LINE_DIGITS := 40

  /** `hex_decode(char)`: a hex digit in either case, anything else fails. */
  function HexDecodeChar(c: char): (r: Result<byte>)
    ensures r.Ok? <==> IsHexChar(c)
    ensures r.Ok? ==> r.value as nat == HexValue(c)
    ensures r.Err? ==> r.msg == INVALID_HEX
  {
    match c
    case '0' => Ok(0)
    case '1' => Ok(1)
    case '2' => Ok(2)
    case '3' => Ok(3)
    case '4' => Ok(4)
    case '5' => Ok(5)
    case '6' => Ok(6)
    case '7' => Ok(7)
    case '8' => Ok(8)
    case '9' => Ok(9)
    case 'A' => Ok(10)
    case 'a' => Ok(10)
    case 'B' => Ok(11)
    case 'b' => Ok(11)
    case 'C' => Ok(12)
    case 'c' => Ok(12)
    case 'D' => Ok(13)
    case 'd' => Ok(13)
    case 'E' => Ok(14)
    case 'e' => Ok(14)
    case 'F' => Ok(15)
    case 'f' => Ok(15)
    case _ => Err(INVALID_HEX)
  }

  /** `hex_encode(uint8_t)`: a nibble as a lowercase digit; larger values
      fail. */
  function HexEncodeChar(x: byte): (r: Result<char>)
    ensures r.Ok? <==> x < 16
    ensures r.Ok? ==> r.value == LowerHexChar(x as nat) && IsLowerHexChar(r.value)
    ensures r.Err? ==> r.msg == INVALID_HEX_INPUT
  {
    match x
    case 0 => Ok('0')
    case 1 => Ok('1')
    case 2 => Ok('2')
    case 3 => Ok('3')
    case 4 => Ok('4')
    case 5 => Ok('5')
    case 6 => Ok('6')
    case 7 => Ok('7')
    case 8 => Ok('8')
    case 9 => Ok('9')
    case 10 => Ok('a')
    case 11 => Ok('b')
    case 12 => Ok('c')
    case 13 => Ok('d')
    case 14 => Ok('e')
    case 15 => Ok('f')
    case _ => Err(INVALID_HEX_INPUT)
  }

  /** `hex_decode(data, data_len)`: an odd length or any non-hex digit
      fails; otherwise every pair of digits becomes one byte, `hi << 4 | lo`. */
  method HexDecode(data: string) returns (r: Result<seq<byte>>)
    ensures r.Ok? <==> |data| % 2 == 0 && AllHex(data)
    ensures r.Ok? ==> |data| % 2 == 0 && AllHex(data) && r.value == HexBytes(data) && |r.value| == |data| / 2
    ensures r.Err? ==> r.msg == INVALID_HEX
  {
    if |data| % 2 != 0 {
      return Err(INVALID_HEX);
    }
    var result := new byte[|data| / 2];
    for i := 0 to |data| / 2
      invariant forall k :: 0 <= k < 2 * i ==> IsHexChar(data[k])
      invariant forall k :: 0 <= k < i ==> result[k] as nat == HexValue(data[2 * k]) * 16 + HexValue(data[2 * k + 1])
    {
      var hi := HexDecodeChar(data[i * 2 + 0]);
      if hi.Err? {
        return Err(hi.msg);
      }
      var lo := HexDecodeChar(data[i * 2 + 1]);
      if lo.Err? {
        return Err(lo.msg);
      }
      // `(hi << 4) | lo` with `lo` below 16
      result[i] := hi.value * 16 + lo.value;
    }
    assert result[..] == HexBytes(data);
    return Ok(result[..]);
  }

  /** `hex_encode(data, data_len)`: two lowercase digits per byte, high
      nibble first. */
  method HexEncode(data: seq<byte>) returns (s: string)
    ensures s == HexString(data)
  {
    var result := new char[|data| * 2];
    for i := 0 to |data|
      invariant forall k :: 0 <= k < 2 * i ==> result[k] == HexString(data)[k]
    {
      result[i * 2 + 0] := HexEncodeChar(data[i] / 16).value;
      result[i * 2 + 1] := HexEncodeChar(data[i] % 16).value;
      assert (i * 2) / 2 == i && (i * 2 + 1) / 2 == i;
    }
    return result[..];
  }

  // ---------------------------------------------------------------------
  // Loading the index

  /** A line that carries a checksum: at least 40 characters, the first 40
      of them hex digits. */
  predicate GoodLine(line: string) {
    |line| >= LINE_DIGITS && AllHex(line[..LINE_DIGITS])
  }

  /** The checksum a good line contributes: its first 40 digits decoded. */
  function LineChecksum(line: string): (c: seq<byte>)
    requires GoodLine(line)
    ensures |c| == LINE_DIGITS / 2
  {
    HexBytes(line[..LINE_DIGITS])
  }

  /** The loop of `index_load` over the lines of the index file. */
  function LoadFrom(path: string, lines: seq<string>, index: set<seq<byte>>): Result<set<seq<byte>>> {
    if lines == [] then Ok(index)
    else
      match LoadFrom(path, lines[..|lines| - 1], index)
      case Err(e) => Err(e)
      case Ok(acc) =>
        var line := lines[|lines| - 1];
        if |line| < LINE_DIGITS then Err(INVALID_INDEX_FILE + path)
        else if !AllHex(line[..LINE_DIGITS]) then Err(INVALID_INDEX_LINE + line)
        else Ok(acc + {LineChecksum(line)})
  }

  lemma {:induction false} LoadSticky(path: string, lines: seq<string>, rest: seq<string>, index: set<seq<byte>>)
    requires LoadFrom(path, lines, index).Err?
    ensures LoadFrom(path, lines + rest, index) == LoadFrom(path, lines, index)
    decreases |rest|
  {
    if rest != [] {
      LoadSticky(path, lines, rest[..|rest| - 1], index);
      assert (lines + rest)[..|lines + rest| - 1] == lines + rest[..|rest| - 1];
    } else {
      assert lines + rest == lines;
    }
  }

  /** `index_load`: the checksums of the index file added to `index`. A
      file that cannot be opened fails. */
  method IndexLoad(path: string, file: Option<seq<string>>, index: set<seq<byte>>) returns (r: Result<set<seq<byte>>>)
    ensures file.None? ==> r == Err(UNABLE_TO_OPEN + path)
    ensures file.Some? ==> r == LoadFrom(path, file.value, index)
  {
    if file.None? {
      return Err(UNABLE_TO_OPEN + path);
    }
    var lines := file.value;
    var loaded := index;
    for i := 0 to |lines|
      invariant LoadFrom(path, lines[..i], index) == Ok(loaded)
    {
      assert lines[..i + 1][..i] == lines[..i];
      var line := lines[i];
      if |line| < LINE_DIGITS {
        LoadSticky(path, lines[..i + 1], lines[i + 1..], index);
        assert lines[..i + 1] + lines[i + 1..] == lines;
        return Err(INVALID_INDEX_FILE + path);
      }
      var checksum := HexDecode(line[..LINE_DIGITS]);
      if checksum.Err? {
        LoadSticky(path, lines[..i + 1], lines[i + 1..], index);
        assert lines[..i + 1] + lines[i + 1..] == lines;
        return Err(INVALID_INDEX_LINE + line);
      }
      loaded := loaded + {checksum.value};
    }
    assert lines[..|lines|] == lines;
    return Ok(loaded);
  }

  /** Loading succeeds exactly when every line is good. */
  lemma {:induction false} LoadFromOk(path: string, lines: seq<string>, index: set<seq<byte>>)
    ensures LoadFrom(path, lines, index).Ok? <==> forall i :: 0 <= i < |lines| ==> GoodLine(lines[i])
    decreases |lines|
  {
    if lines != [] {
      var init := lines[..|lines| - 1];
      var line := lines[|lines| - 1];
      LoadFromOk(path, init, index);
      if LoadFrom(path, lines, index).Ok? {
        assert LoadFrom(path, init, index).Ok? && GoodLine(line);
        forall i | 0 <= i < |lines| ensures GoodLine(lines[i]) {
          if i < |init| {
            assert lines[i] == init[i];
          }
        }
      } else if LoadFrom(path, init, index).Err? {
        var i :| 0 <= i < |init| && !GoodLine(init[i]);
        assert lines[i] == init[i];
      } else {
        assert !GoodLine(line);
      }
    }
  }

  /** Some well-formed line among `lines` carries the checksum `c`. */
  predicate Listed(lines: seq<string>, c: seq<byte>) {
    exists i :: 0 <= i < |lines| && GoodLine(lines[i]) && c == LineChecksum(lines[i])
  }

  lemma ListedLast(lines: seq<string>, c: seq<byte>)
    requires lines != []
    ensures Listed(lines, c) <==>
      Listed(lines[..|lines| - 1], c) || (GoodLine(lines[|lines| - 1]) && c == LineChecksum(lines[|lines| - 1]))
  {
    var init := lines[..|lines| - 1];
    if Listed(init, c) {
      var i :| 0 <= i < |init| && GoodLine(init[i]) && c == LineChecksum(init[i]);
      assert lines[i] == init[i];
    }
    if Listed(lines, c) {
      var i :| 0 <= i < |lines| && GoodLine(lines[i]) && c == LineChecksum(lines[i]);
      if i < |init| {
        assert init[i] == lines[i];
      } else {
        assert i == |lines| - 1;
      }
    }
  }

  /** A successful load adds the checksum of every line to `index`, and
      nothing else. */
  lemma {:induction false} LoadFromMembers(path: string, lines: seq<string>, index: set<seq<byte>>, c: seq<byte>)
    requires LoadFrom(path, lines, index).Ok?
    ensures c in LoadFrom(path, lines, index).value <==> c in index || Listed(lines, c)
    decreases |lines|
  {
    if lines != [] {
      var init := lines[..|lines| - 1];
      var line := lines[|lines| - 1];
      assert LoadFrom(path, init, index).Ok? && GoodLine(line);
      LoadFromMembers(path, init, index, c);
      assert LoadFrom(path, lines, index).value == LoadFrom(path, init, index).value + {LineChecksum(line)};
      ListedLast(lines, c);
    }
  }

  /** Only the first 40 characters of a line matter: two files whose lines
      agree on them load the same checksums. */
  lemma {:induction false} LoadIgnoresRest(path: string, lines: seq<string>, others: seq<string>, index: set<seq<byte>>)
    requires |lines| == |others|
    requires forall i :: 0 <= i < |lines| ==>
      GoodLine(lines[i]) && |others[i]| >= LINE_DIGITS && others[i][..LINE_DIGITS] == lines[i][..LINE_DIGITS]
    ensures LoadFrom(path, others, index) == LoadFrom(path, lines, index)
    decreases |lines|
  {
    if lines != [] {
      var n := |lines| - 1;
      LoadIgnoresRest(path, lines[..n], others[..n], index);
      LoadFromOk(path, lines[..n], index);
      assert GoodLine(lines[n]) && GoodLine(others[n]);
    }
  }

  /** An index line shorter than 40 characters fails the whole load. */
  lemma ShortLineFails(path: string, lines: seq<string>, index: set<seq<byte>>, i: nat)
    requires i < |lines| && |lines[i]| < LINE_DIGITS
    ensures LoadFrom(path, lines, index).Err?
  {
    LoadFromOk(path, lines, index);
  }

  // ---------------------------------------------------------------------
  // The search

  /** The line printed for a path whose file was read. */
  function Verdict(index: set<seq<byte>>, sha1: Sha1, fs: ChecksumFunction.Files, path: string): (line: string)
    requires path in fs
    ensures sha1(fs[path]) in index ==> line == "hit " + path
    ensures sha1(fs[path]) !in index ==> line == "miss " + path
  {
    var fileChecksum := ComputeSha1(sha1, fs, path).value;
    if fileChecksum.value in index then "hit " + path else "miss " + path
  }

  /** The answers "hit" and "miss" cannot be confused. */
  lemma VerdictDistinct(index: set<seq<byte>>, sha1: Sha1, fs: ChecksumFunction.Files, path: string)
    requires path in fs
    ensures Verdict(index, sha1, fs, path)[..4] == "hit " <==> sha1(fs[path]) in index
  {
    var line := Verdict(index, sha1, fs, path);
    if sha1(fs[path]) in index {
      assert line[..4] == "hit ";
    } else {
      assert line[0] == 'm';
    }
  }

  /** The answering loop of `cmd_search`: one verdict per path, stopping
      at the first file that cannot be opened. */
  method Answer(index: set<seq<byte>>, paths: seq<string>, fs: ChecksumFunction.Files, sha1: Sha1)
    returns (out: seq<string>, err: Option<string>)
    ensures |out| <= |paths|
    ensures forall i :: 0 <= i < |out| ==> paths[i] in fs && out[i] == Verdict(index, sha1, fs, paths[i])
    ensures err.None? <==> forall i :: 0 <= i < |paths| ==> paths[i] in fs
    ensures err.None? ==> |out| == |paths|
    ensures err.Some? ==> |out| < |paths| && paths[|out|] !in fs && err == Some(UNABLE_TO_OPEN + paths[|out|])
  {
    out := [];
    for i := 0 to |paths|
      invariant |out| == i
      invariant forall k :: 0 <= k < i ==> paths[k] in fs && out[k] == Verdict(index, sha1, fs, paths[k])
    {
      var fileChecksum := ComputeSha1(sha1, fs, paths[i]);
      if fileChecksum.Err? {
        return out, Some(fileChecksum.msg);
      }
      if fileChecksum.value.value in index {
        out := out + ["hit " + paths[i]];
      } else {
        out := out + ["miss " + paths[i]];
      }
    }
    return out, None;
  }

  /** `cmd_search` after its options: an index path is required; the index
      is loaded, then every path from standard input is answered. */
  method Search(indexPath: string, indexFile: Option<seq<string>>, paths: seq<string>,
                fs: ChecksumFunction.Files, sha1: Sha1)
    returns (out: seq<string>, err: Option<string>)
    ensures indexPath == [] ==> out == [] && err == Some(NEED_INDEX)
    ensures indexPath != [] && indexFile.None? ==> out == [] && err == Some(UNABLE_TO_OPEN + indexPath)
    ensures indexPath != [] && indexFile.Some? && LoadFrom(indexPath, indexFile.value, {}).Err? ==>
      out == [] && err == Some(LoadFrom(indexPath, indexFile.value, {}).msg)
    ensures indexPath != [] && indexFile.Some? && LoadFrom(indexPath, indexFile.value, {}).Ok? ==>
      |out| <= |paths| && forall i :: 0 <= i < |out| ==>
        paths[i] in fs && out[i] == Verdict(LoadFrom(indexPath, indexFile.value, {}).value, sha1, fs, paths[i])
    ensures indexPath != [] && indexFile.Some? && LoadFrom(indexPath, indexFile.value, {}).Ok? ==>
      (err.None? <==> forall i :: 0 <= i < |paths| ==> paths[i] in fs)
      && (err.None? ==> |out| == |paths|)
      && (err.Some? ==> |out| < |paths| && paths[|out|] !in fs && err == Some(UNABLE_TO_OPEN + paths[|out|]))
  {
    if indexPath == [] {
      return [], Some(NEED_INDEX);
    }
    var loaded := IndexLoad(indexPath, indexFile, {});
    if loaded.Err? {
      return [], Some(loaded.msg);
    }
    out, err := Answer(loaded.value, paths, fs, sha1);
  }
}
