/** checksum.cc: the checksum types of the C++ tool, the hex form of their
    values as stored in an index file, and the comparison of two checksums.
    A value is modelled as its bytes, exactly `Size(type)` of them; SHA-1
    itself is a parameter. */
module ChecksumCodec {
  import opened Wrappers
  import opened Text
  import opened Hex
  import ChecksumFunction

  datatype ChecksumType = MD5 | SHA1

  datatype Checksum = Checksum(typ: ChecksumType, value: seq<byte>)

  const INVALID_TYPE := "invalid checksum type: "
  const INVALID_VALUE := "invalid checksum value"
  const INVALID_INPUT := "invalid input"
  const UNABLE_TO_OPEN := "unable to open file: "

  /** `checksum_size`: the number of bytes of a value. */
  function Size(t: ChecksumType): (n: nat)
    ensures t == MD5 ==> n == 16
    ensures t == SHA1 ==> n == 20
  {
    match t
    case MD5 => 16
    case SHA1 => 20
  }

  /** A checksum whose value has the size of its type. */
  predicate Valid(c: Checksum) {
    |c.value| == Size(c.typ)
  }

  /** The name of a type as it appears before the ':' of a stored checksum. */
  function TypeName(t: ChecksumType): string {
    match t
    case MD5 => "md5"
    case SHA1 => "sha1"
  }

  /** `checksum_read_type`: exactly "md5" and "sha1" are types, and a type
      read back is written as the same name. */
  function ReadType(input: string): (r: Result<ChecksumType>)
    ensures r.Ok? <==> input == "md5" || input == "sha1"
    ensures r.Ok? ==> TypeName(r.value) == input
    ensures r.Err? ==> r.msg == INVALID_TYPE + input
  {
    if input == "md5" then Ok(MD5)
    else if input == "sha1" then Ok(SHA1)
    else Err(INVALID_TYPE + input)
  }

  lemma ReadTypeName(t: ChecksumType)
    ensures ReadType(TypeName(t)) == Ok(t)
  {
  }

  /** `checksum_read_value_byte`: a hex digit in either case, anything
      else fails. */
  function ReadValueByte(c: char): (r: Result<byte>)
    ensures r.Ok? <==> IsHexChar(c)
    ensures r.Ok? ==> r.value as nat == HexValue(c)
    ensures r.Err? ==> r.msg == INVALID_VALUE
  {
    match c
    case '0' => Ok(0)
    case '1' => Ok(1)
    case '2' => Ok(2)
    case '3' => Ok(3)
    case '4' => Ok(4)
    case '5' => Ok(5)
    case '6' => Ok(6)
    case '7' => Ok(7)
    case '8' => Ok(8)
    case '9' => Ok(9)
    case 'A' => Ok(10)
    case 'a' => Ok(10)
    case 'B' => Ok(11)
    case 'b' => Ok(11)
    case 'C' => Ok(12)
    case 'c' => Ok(12)
    case 'D' => Ok(13)
    case 'd' => Ok(13)
    case 'E' => Ok(14)
    case 'e' => Ok(14)
    case 'F' => Ok(15)
    case 'f' => Ok(15)
    case _ => Err(INVALID_VALUE)
  }

  /** `checksum_write_value_byte`: a nibble as a lowercase digit; larger
      values fail. */
  function WriteValueByte(x: byte): (r: Result<char>)
    ensures r.Ok? <==> x < 16
    ensures r.Ok? ==> r.value == LowerHexChar(x as nat) && IsLowerHexChar(r.value)
    ensures r.Err? ==> r.msg == INVALID_INPUT
  {
    match x
    case 0 => Ok('0')
    case 1 => Ok('1')
    case 2 => Ok('2')
    case 3 => Ok('3')
    case 4 => Ok('4')
    case 5 => Ok('5')
    case 6 => Ok('6')
    case 7 => Ok('7')
    case 8 => Ok('8')
    case 9 => Ok('9')
    case 10 => Ok('a')
    case 11 => Ok('b')
    case 12 => Ok('c')
    case 13 => Ok('d')
    case 14 => Ok('e')
    case 15 => Ok('f')
    case _ => Err(INVALID_INPUT)
  }

  /** A digit read back and written again is the digit in lowercase, and a
      nibble written and read back is the nibble. */
  lemma ValueByteRoundTrip(c: char, x: byte)
    ensures ReadValueByte(c).Ok? ==> WriteValueByte(ReadValueByte(c).value) == Ok(ToLower(c))
    ensures x < 16 ==> ReadValueByte(WriteValueByte(x).value) == Ok(x)
  {
    if ReadValueByte(c).Ok? {
      HexValueLowerChar(c);
    }
    if x < 16 {
      LowerHexCharValue(x as nat);
    }
  }

  /** What `checksum_read_value` yields: the value of exactly `2 * Size(t)`
      hex digits (`ValueRoundTrip` relates it to the digits). */
  function DecodeValue(input: string, t: ChecksumType): (r: Result<seq<byte>>)
    ensures r.Ok? <==> |input| == 2 * Size(t) && AllHex(input)
    ensures r.Ok? ==> |r.value| == Size(t)
    ensures r.Err? ==> r.msg == INVALID_VALUE
  {
    if |input| == 2 * Size(t) && AllHex(input) then Ok(HexBytes(input))
    else Err(INVALID_VALUE)
  }

  /** `checksum_read_value`: the length is checked first, then the digits
      are decoded two at a time, high nibble first. */
  method ReadValue(input: string, t: ChecksumType) returns (r: Result<seq<byte>>)
    ensures r == DecodeValue(input, t)
    ensures r.Ok? ==> |input| % 2 == 0 && AllHex(input) && r.value == HexBytes(input)
  {
    if |input| != Size(t) * 2 {
      return Err(INVALID_VALUE);
    }
    var value := new byte[Size(t)];
    for i := 0 to |input| / 2
      invariant forall k :: 0 <= k < 2 * i ==> IsHexChar(input[k])
      invariant forall k :: 0 <= k < i ==> value[k] as nat == HexValue(input[2 * k]) * 16 + HexValue(input[2 * k + 1])
    {
      var hi := ReadValueByte(input[i * 2 + 0]);
      if hi.Err? {
        return Err(hi.msg);
      }
      var lo := ReadValueByte(input[i * 2 + 1]);
      if lo.Err? {
        return Err(lo.msg);
      }
      // `(hi << 4) | lo` with `lo` below 16
      value[i] := hi.value * 16 + lo.value;
    }
    assert value[..] == HexBytes(input);
    return Ok(value[..]);
  }

  /** `checksum_write_value`: the `Size(t)` bytes of a value as lowercase
      hex, high nibble first. */
  method WriteValue(value: seq<byte>, t: ChecksumType) returns (output: string)
    requires |value| == Size(t)
    ensures output == HexString(value)
  {
    var valueSize := Size(t);
    var out := new char[valueSize * 2];
    for i := 0 to valueSize
      invariant forall k :: 0 <= k < 2 * i ==> out[k] == HexString(value)[k]
    {
      out[i * 2 + 0] := WriteValueByte(value[i] / 16).value;
      out[i * 2 + 1] := WriteValueByte(value[i] % 16).value;
      assert (i * 2) / 2 == i && (i * 2 + 1) / 2 == i;
    }
    return out[..];
  }

  /** `checksum_write_value` of a whole checksum. */
  method WriteChecksum(c: Checksum) returns (output: string)
    requires Valid(c)
    ensures output == HexString(c.value)
  {
    output := WriteValue(c.value, c.typ);
  }

  /** A value written and read back is the value; a hex string read and
      written back is that string in lowercase. */
  lemma ValueRoundTrip(v: seq<byte>, s: string, t: ChecksumType)
    ensures |v| == Size(t) ==> DecodeValue(HexString(v), t) == Ok(v)
    ensures DecodeValue(s, t).Ok? ==>
      HexString(DecodeValue(s, t).value) == ToLowerAll(s) && AllLowerHex(HexString(DecodeValue(s, t).value))
  {
    DecodeEncode(v);
    if DecodeValue(s, t).Ok? {
      EncodeDecode(s);
      HexStringLower(DecodeValue(s, t).value);
    }
  }

  /** `checksum_compare`: different types never match; otherwise the
      first `Size` bytes are compared. */
  function Compare(a: Checksum, b: Checksum): (r: bool)
    requires Valid(a) && Valid(b)
    ensures r <==> a == b
  {
    if a.typ != b.typ then false
    else a.value[..Size(a.typ)] == b.value[..Size(a.typ)]
  }

  /** Two checksums match exactly when they have the same type and are
      written as the same hex string. */
  lemma CompareByHex(a: Checksum, b: Checksum)
    requires Valid(a) && Valid(b)
    ensures Compare(a, b) <==> a.typ == b.typ && HexString(a.value) == HexString(b.value)
  {
    HexStringInjective(a.value, b.value);
  }

  /** SHA-1, as a function from file contents to a 20-byte digest. */
  type Sha1 = f: seq<byte> -> seq<byte> | forall x :: |f(x)| == 20
    witness (x: seq<byte>) => seq(20, _ => 0 as byte)

  /** `checksum_compute_sha1`: the SHA-1 checksum of a readable file. */
  function ComputeSha1(sha1: Sha1, fs: ChecksumFunction.Files, path: string): (r: Result<Checksum>)
    ensures r.Ok? <==> path in fs
    ensures r.Ok? ==> r.value.typ == SHA1 && Valid(r.value) && r.value.value == sha1(fs[path])
    ensures r.Err? ==> r.msg == UNABLE_TO_OPEN + path
  {
    if path !in fs then Err(UNABLE_TO_OPEN + path)
    else Ok(Checksum(SHA1, sha1(fs[path])))
  }
}
