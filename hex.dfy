/** Base16 as both C++ tools write it (section 8 of RFC 4648): every byte
    becomes two hex digits, the high nibble first. Digits are read in
    either case and written in lowercase. This module holds the reference
    definitions; checksum.cc and cmd_search.cc each have their own
    digit-by-digit switch, modelled in their modules and proved equal to
    these. */
module Hex {
  import opened Text

  predicate IsHexChar(c: char) {
    '0' <= c <= '9' || 'a' <= c <= 'f' || 'A' <= c <= 'F'
  }

  predicate IsLowerHexChar(c: char) {
    '0' <= c <= '9' || 'a' <= c <= 'f'
  }

  predicate AllHex(s: string) {
    forall k :: 0 <= k < |s| ==> IsHexChar(s[k])
  }

  predicate AllLowerHex(s: string) {
    forall k :: 0 <= k < |s| ==> IsLowerHexChar(s[k])
  }

  /** The value of one hex digit. */
  function HexValue(c: char): (n: nat)
    requires IsHexChar(c)
    ensures n < 16
  {
    if '0' <= c <= '9' then c as int - '0' as int
    else if 'a' <= c <= 'f' then c as int - 'a' as int + 10
    else c as int - 'A' as int + 10
  }

  /** The lowercase digit of a nibble. */
  function LowerHexChar(n: nat): (c: char)
    requires n < 16
    ensures IsLowerHexChar(c)
  {
    if n < 10 then ('0' as int + n) as char else ('a' as int + n - 10) as char
  }

  /** A digit in lowercase; digits and 'a'-'f' are kept. */
  function ToLower(c: char): (d: char)
    requires IsHexChar(c)
  {
    if 'A' <= c <= 'F' then (c as int - 'A' as int + 'a' as int) as char else c
  }

  function ToLowerAll(s: string): (t: string)
    requires AllHex(s)
  {
    seq(|s|, k requires 0 <= k < |s| => ToLower(s[k]))
  }

  lemma LowerHexCharValue(n: nat)
    requires n < 16
    ensures HexValue(LowerHexChar(n)) == n
  {
  }

  lemma HexValueLowerChar(c: char)
    requires IsHexChar(c)
    ensures LowerHexChar(HexValue(c)) == ToLower(c)
  {
  }

  /** The high nibble of a byte. */
  function High(b: byte): nat { b as nat / 16 }

  /** The low nibble of a byte. */
  function Low(b: byte): nat { b as nat % 16 }

  /** Base16 decoding of an even number of hex digits. */
  function HexBytes(s: string): (bs: seq<byte>)
    requires |s| % 2 == 0 && AllHex(s)
    ensures |bs| == |s| / 2
  {
    seq(|s| / 2, i requires 0 <= i < |s| / 2 => (HexValue(s[2 * i]) * 16 + HexValue(s[2 * i + 1])) as byte)
  }

  /** Base16 encoding in lowercase. */
  function HexString(bs: seq<byte>): (s: string)
    ensures |s| == 2 * |bs|
  {
    seq(2 * |bs|, k requires 0 <= k < 2 * |bs| =>
      LowerHexChar(if k % 2 == 0 then High(bs[k / 2]) else Low(bs[k / 2])))
  }

  /** Encoding only writes lowercase digits. */
  lemma HexStringLower(bs: seq<byte>)
    ensures AllLowerHex(HexString(bs)) && AllHex(HexString(bs))
  {
    var s := HexString(bs);
    forall k | 0 <= k < |s| ensures IsLowerHexChar(s[k]) && IsHexChar(s[k]) {
      assert IsLowerHexChar(LowerHexChar(if k % 2 == 0 then High(bs[k / 2]) else Low(bs[k / 2])));
    }
  }

  /** Decoding what was encoded gives the bytes back. */
  lemma DecodeEncode(bs: seq<byte>)
    ensures |HexString(bs)| % 2 == 0 && AllHex(HexString(bs))
    ensures HexBytes(HexString(bs)) == bs
  {
    HexStringLower(bs);
    var s := HexString(bs);
    forall i | 0 <= i < |bs| ensures HexBytes(s)[i] == bs[i] {
      assert s[2 * i] == LowerHexChar(High(bs[i])) by {
        assert (2 * i) % 2 == 0 && (2 * i) / 2 == i;
      }
      assert s[2 * i + 1] == LowerHexChar(Low(bs[i])) by {
        assert (2 * i + 1) % 2 == 1 && (2 * i + 1) / 2 == i;
      }
      LowerHexCharValue(High(bs[i]));
      LowerHexCharValue(Low(bs[i]));
    }
  }

  /** Encoding what was decoded gives the digits back in lowercase. */
  lemma EncodeDecode(s: string)
    requires |s| % 2 == 0 && AllHex(s)
    ensures HexString(HexBytes(s)) == ToLowerAll(s)
  {
    var bs := HexBytes(s);
    var t := HexString(bs);
    forall k | 0 <= k < |s| ensures t[k] == ToLower(s[k]) {
      var i := k / 2;
      var hi, lo := HexValue(s[2 * i]), HexValue(s[2 * i + 1]);
      assert bs[i] as nat == hi * 16 + lo;
      assert High(bs[i]) == hi && Low(bs[i]) == lo;
      if k % 2 == 0 {
        assert k == 2 * i;
        HexValueLowerChar(s[k]);
      } else {
        assert k == 2 * i + 1;
        HexValueLowerChar(s[k]);
      }
    }
  }

  /** Two byte strings are equal exactly when their encodings are. */
  lemma HexStringInjective(a: seq<byte>, b: seq<byte>)
    ensures HexString(a) == HexString(b) <==> a == b
  {
    if HexString(a) == HexString(b) {
      DecodeEncode(a);
      DecodeEncode(b);
    }
  }
}
