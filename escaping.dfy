/** The escaping of paths and messages in the Rust snapshot encoding
    (`encode_string` / `decode_string`): backslash, newline and space are
    written as `\\`, `\n` and `\_`. */
module Escaping {
  import opened Wrappers

  const INVALID_ESCAPE: string := "invalid escape sequence"

  function EscapeChar(c: char): string {
    match c
    case '\n' => "\\n"
    case '\\' => "\\\\"
    case ' ' => "\\_"
    case _ => [c]
  }

  /** The escaped form of `s`, character by character. */
  function Escape(s: string): string {
    if s == [] then [] else Escape(s[..|s| - 1]) + EscapeChar(s[|s| - 1])
  }

  /** Decoding of `s` by the state machine of `decode_string`, starting in
      escape mode when `escape` holds. A backslash at the very end leaves
      the machine in escape mode and is dropped. */
  function UnescapeFrom(s: string, escape: bool): Result<string> {
    if s == [] then Ok([])
    else if escape then
      match s[0]
      case '\\' => Prepend("\\", UnescapeFrom(s[1..], false))
      case 'n' => Prepend("\n", UnescapeFrom(s[1..], false))
      case '_' => Prepend(" ", UnescapeFrom(s[1..], false))
      case _ => Err(INVALID_ESCAPE)
    else if s[0] == '\\' then UnescapeFrom(s[1..], true)
    else Prepend([s[0]], UnescapeFrom(s[1..], false))
  }

  function Unescape(s: string): Result<string> {
    UnescapeFrom(s, false)
  }

  /** The decoded text `p` followed by whatever `r` decodes to. */
  function Prepend(p: string, r: Result<string>): Result<string> {
    if r.Ok? then Ok(p + r.value) else r
  }

  /** `encode_string`. */
  method EncodeString(src: string) returns (dst: string)
    ensures dst == Escape(src)
  {
    dst := "";
    for i := 0 to |src|
      invariant dst == Escape(src[..i])
    {
      var c := src[i];
      match c {
        case '\n' => dst := dst + "\\n";
        case '\\' => dst := dst + "\\\\";
        case ' ' => dst := dst + "\\_";
        case _ => dst := dst + [c];
      }
      assert src[..i + 1][..i] == src[..i];
    }
    assert src[..|src|] == src;
  }

  /** `decode_string`. */
  method DecodeString(src: string) returns (r: Result<string>)
    ensures r == Unescape(src)
  {
    var dst := "";
    var escape := false;
    PrependEmpty(Unescape(src));
    assert src[0..] == src;
    for i := 0 to |src|
      invariant Unescape(src) == Prepend(dst, UnescapeFrom(src[i..], escape))
    {
      var c := src[i];
      ghost var tail := UnescapeFrom(src[i + 1..], false);
      assert src[i..][0] == c && src[i..][1..] == src[i + 1..];
      if escape {
        match c {
          case '\\' => PrependAssoc(dst, "\\", tail); dst := dst + "\\";
          case 'n' => PrependAssoc(dst, "\n", tail); dst := dst + "\n";
          case '_' => PrependAssoc(dst, " ", tail); dst := dst + " ";
          case _ => return Err(INVALID_ESCAPE);
        }
        escape := false;
      } else {
        if c == '\\' {
          escape := true;
        } else {
          PrependAssoc(dst, [c], tail);
          dst := dst + [c];
        }
      }
    }
    assert src[|src|..] == [] && dst + [] == dst;
    return Ok(dst);
  }

  // ---------------------------------------------------------------------
  // Properties

  lemma {:induction false} EscapeConcat(a: string, b: string)
    ensures Escape(a + b) == Escape(a) + Escape(b)
    decreases |b|
  {
    if b != [] {
      var b' := b[..|b| - 1];
      assert (a + b)[..|a + b| - 1] == a + b';
      EscapeConcat(a, b');
    } else {
      assert a + b == a;
    }
  }

  /** The escaped form contains no space and no newline, so it is one
      field of one line. */
  lemma {:induction false} EscapeHasNoSeparators(s: string)
    ensures ' ' !in Escape(s) && '\n' !in Escape(s)
  {
    if s != [] {
      EscapeHasNoSeparators(s[..|s| - 1]);
    }
  }

  /** The escaped form ends in '\r' exactly when the text does. */
  lemma EscapeLastChar(s: string)
    ensures (|Escape(s)| > 0 && Escape(s)[|Escape(s)| - 1] == '\r') <==> (|s| > 0 && s[|s| - 1] == '\r')
  {
  }

  lemma PrependEmpty(r: Result<string>)
    ensures Prepend("", r) == r
  {
    if r.Ok? {
      assert "" + r.value == r.value;
    }
  }

  lemma PrependAssoc(p: string, q: string, r: Result<string>)
    ensures Prepend(p, Prepend(q, r)) == Prepend(p + q, r)
  {
    if r.Ok? {
      assert p + (q + r.value) == (p + q) + r.value;
    }
  }

  /** Decoding the escaped form of one character, then the rest. */
  lemma UnescapeEscapeChar(c: char, e: string)
    ensures UnescapeFrom(EscapeChar(c) + e, false) == Prepend([c], UnescapeFrom(e, false))
  {
    var x := EscapeChar(c) + e;
    if c == '\n' || c == '\\' || c == ' ' {
      assert x[0] == '\\' && x[1..][1..] == e;
      assert UnescapeFrom(x, false) == UnescapeFrom(x[1..], true);
    } else {
      assert x[0] == c && x[1..] == e;
    }
  }

  /** Decoding undoes encoding: decode_string(encode_string(s)) == Ok(s). */
  lemma {:induction false} UnescapeEscape(s: string)
    ensures Unescape(Escape(s)) == Ok(s)
    decreases |s|
  {
    if s != [] {
      var c, t := s[0], s[1..];
      assert s == [c] + t;
      EscapeConcat([c], t);
      assert Escape([c]) == EscapeChar(c);
      UnescapeEscape(t);
      UnescapeEscapeChar(c, Escape(t));
    }
  }

  /** The mode `decode_string` is in after reading `p` from mode
      `escape`, or `None` when `p` holds a bad escape. */
  function ModeAfter(p: string, escape: bool): Option<bool> {
    if p == [] then Some(escape)
    else if escape then
      match p[0]
      case '\\' => ModeAfter(p[1..], false)
      case 'n' => ModeAfter(p[1..], false)
      case '_' => ModeAfter(p[1..], false)
      case _ => None
    else ModeAfter(p[1..], p[0] == '\\')
  }

  /** A failure after a prefix that leaves no escape pending is a failure
      of the whole. */
  lemma {:induction false} ErrAfter(p: string, x: string, escape: bool)
    requires ModeAfter(p, escape) == Some(false)
    requires UnescapeFrom(x, false).Err?
    ensures UnescapeFrom(p + x, escape).Err?
    decreases |p|
  {
    if p == [] {
      assert p + x == x;
    } else {
      assert (p + x)[0] == p[0] && (p + x)[1..] == p[1..] + x;
      ErrAfter(p[1..], x, !escape && p[0] == '\\');
    }
  }

  /** Encoded text leaves no escape pending. */
  lemma {:induction false} EscapeSettles(s: string)
    ensures ModeAfter(Escape(s), false) == Some(false)
    decreases |s|
  {
    if s != [] {
      var h, t := s[0], s[1..];
      assert s == [h] + t;
      EscapeConcat([h], t);
      assert Escape([h]) == EscapeChar(h);
      EscapeSettles(t);
      var e := EscapeChar(h) + Escape(t);
      if h == '\n' || h == '\\' || h == ' ' {
        assert e[0] == '\\' && e[1..][1..] == Escape(t);
      } else {
        assert e[0] == h && e[1..] == Escape(t);
      }
    }
  }

  /** After any text that leaves no escape pending (every field that
      `encode_string` writes is one), a backslash followed by anything but
      '\\', 'n' or '_' is rejected, whatever follows. */
  lemma UnescapeRejectsBadEscape(p: string, c: char, rest: string)
    requires ModeAfter(p, false) == Some(false)
    requires c != '\\' && c != 'n' && c != '_'
    ensures Unescape(p + ['\\', c] + rest).Err?
  {
    var x := ['\\', c] + rest;
    assert x[0] == '\\' && x[1..][0] == c;
    assert UnescapeFrom(x, false) == UnescapeFrom(x[1..], true);
    ErrAfter(p, x, false);
    assert p + ['\\', c] + rest == p + x;
  }

  /** A lone backslash at the end of the input is dropped without error. */
  lemma {:induction false} UnescapeDropsTrailingBackslash(s: string)
    ensures Unescape(Escape(s) + ['\\']) == Ok(s)
    decreases |s|
  {
    if s == [] {
      assert Escape(s) + ['\\'] == ['\\'] && ['\\'][1..] == [];
    } else {
      var h, t := s[0], s[1..];
      assert s == [h] + t;
      EscapeConcat([h], t);
      assert Escape([h]) == EscapeChar(h);
      UnescapeDropsTrailingBackslash(t);
      var e := Escape(t) + ['\\'];
      assert Escape(s) + ['\\'] == EscapeChar(h) + e;
      UnescapeEscapeChar(h, e);
    }
  }
}
