/** The pieces of Rust's standard library that the snapshot codec relies on,
    written out: fixed-width integers, decimal formatting and `str::parse`,
    `str::lines`, `str::split`, the ordering of `String` keys and the
    ascending iteration order of a `BTreeMap<String, _>`. */
module Text {
  import opened Wrappers

  newtype byte = x: int | 0 <= x < 256
  newtype u64 = x: int | 0 <= x < 0x1_0000_0000_0000_0000
  newtype i64 = x: int | -0x8000_0000_0000_0000 <= x < 0x8000_0000_0000_0000

  const U64_LIMIT: int := 0x1_0000_0000_0000_0000

  /** `{:?}` of a string: the text in double quotes (Rust's escaping of
      quotes and control characters inside it is not modelled). */
  function Quoted(s: string): string {
    "\"" + s + "\""
  }

  // ---------------------------------------------------------------------
  // Decimal digits

  predicate IsDigit(c: char) {
    '0' <= c <= '9'
  }

  predicate AllDigits(s: string) {
    forall i :: 0 <= i < |s| ==> IsDigit(s[i])
  }

  function DigitChar(d: nat): (c: char)
    requires d < 10
    ensures IsDigit(c)
  {
    ('0' as int + d) as char
  }

  function DigitOf(c: char): (d: nat)
    requires IsDigit(c)
    ensures d < 10 && DigitChar(d) == c
  {
    c as int - '0' as int
  }

  /** The value of a string of decimal digits, most significant first. */
  function DigitsValue(s: string): nat
    requires AllDigits(s)
  {
    if s == [] then 0 else DigitsValue(s[..|s| - 1]) * 10 + DigitOf(s[|s| - 1])
  }

  /** `format!("{}", n)` for a non-negative integer. */
  function Decimal(n: nat): (s: string)
    ensures |s| > 0 && AllDigits(s)
  {
    if n < 10 then [DigitChar(n)] else Decimal(n / 10) + [DigitChar(n % 10)]
  }

  /** `format!("{}", i)` for a signed integer. */
  function SignedDecimal(i: int): string {
    if i < 0 then "-" + Decimal(-i) else Decimal(i)
  }

  lemma {:induction false} DecimalValue(n: nat)
    ensures DigitsValue(Decimal(n)) == n
  {
    if n >= 10 {
      var s := Decimal(n);
      assert s[..|s| - 1] == Decimal(n / 10);
      DecimalValue(n / 10);
    }
  }

  /** `s.parse::<u64>()`: an optional '+', then one or more ASCII digits,
      with a value that fits in 64 bits. */
  function ParseU64(s: string): (r: Option<u64>)
    ensures r.Some? ==> |s| > 0
  {
    if |s| == 0 then None
    else
      var digits := if s[0] == '+' then s[1..] else s;
      if |digits| == 0 || !AllDigits(digits) then None
      else if DigitsValue(digits) < U64_LIMIT then Some(DigitsValue(digits) as u64)
      else None
  }

  /** `s.parse::<i64>()`: an optional sign, then one or more ASCII digits,
      with a value in the signed 64-bit range. */
  function ParseI64(s: string): (r: Option<i64>)
    ensures r.Some? ==> |s| > 0
  {
    if |s| == 0 then None
    else
      var negative := s[0] == '-';
      var digits := if s[0] == '+' || s[0] == '-' then s[1..] else s;
      if |digits| == 0 || !AllDigits(digits) then None
      else
        var v: int := if negative then -(DigitsValue(digits) as int) else DigitsValue(digits);
        if -0x8000_0000_0000_0000 <= v < 0x8000_0000_0000_0000 then Some(v as i64) else None
  }

  lemma ParseU64Decimal(n: u64)
    ensures ParseU64(Decimal(n as nat)) == Some(n)
  {
    DecimalValue(n as nat);
  }

  lemma ParseI64SignedDecimal(i: i64)
    ensures ParseI64(SignedDecimal(i as int)) == Some(i)
  {
    if i < 0 {
      ParseI64Negative(-(i as int));
    } else {
      ParseI64NonNegative(i as nat);
    }
  }

  lemma ParseI64Negative(n: nat)
    requires 0 < n <= 0x8000_0000_0000_0000
    ensures ParseI64("-" + Decimal(n)) == Some((-(n as int)) as i64)
  {
    var s := "-" + Decimal(n);
    assert s[0] == '-' && s[1..] == Decimal(n);
    DecimalValue(n);
  }

  lemma ParseI64NonNegative(n: nat)
    requires n < 0x8000_0000_0000_0000
    ensures ParseI64(Decimal(n)) == Some(n as i64)
  {
    var s := Decimal(n);
    assert s[0] != '+' && s[0] != '-' by {
      assert IsDigit(s[0]);
    }
    DecimalValue(n);
  }

  // ---------------------------------------------------------------------
  // Searching, splitting and joining

  /** Index of the first occurrence of `c` in `s`, or `|s|` when there is none. */
  function IndexOf(s: string, c: char): (i: nat)
    ensures i <= |s|
    ensures forall j :: 0 <= j < i ==> s[j] != c
    ensures i < |s| ==> s[i] == c
  {
    if s == [] then 0 else if s[0] == c then 0 else 1 + IndexOf(s[1..], c)
  }

  lemma {:induction false} IndexOfAfter(a: string, c: char, b: string)
    requires c !in a
    ensures IndexOf(a + [c] + b, c) == |a|
  {
    if a != [] {
      assert (a + [c] + b)[1..] == a[1..] + [c] + b;
      IndexOfAfter(a[1..], c, b);
    }
  }

  /** `s.split(c)`: the pieces between occurrences of `c`; always at least one. */
  function Split(s: string, c: char): (r: seq<string>)
    ensures |r| > 0
    decreases |s|
  {
    var i := IndexOf(s, c);
    if i == |s| then [s] else [s[..i]] + Split(s[i + 1..], c)
  }

  /** The pieces of `fields`, separated by `c`. */
  function Join(fields: seq<string>, c: char): string
    requires |fields| > 0
  {
    if |fields| == 1 then fields[0] else fields[0] + [c] + Join(fields[1..], c)
  }

  /** Splitting after a first piece without separator. */
  lemma SplitAt(a: string, c: char, rest: string)
    requires c !in a
    ensures Split(a + [c] + rest, c) == [a] + Split(rest, c)
  {
    var s := a + [c] + rest;
    IndexOfAfter(a, c, rest);
    assert s[..|a|] == a;
    assert s[|a| + 1..] == rest;
  }

  lemma {:induction false} SplitJoin(fields: seq<string>, c: char)
    requires |fields| > 0
    requires forall k :: 0 <= k < |fields| ==> c !in fields[k]
    ensures Split(Join(fields, c), c) == fields
  {
    if |fields| > 1 {
      SplitAt(fields[0], c, Join(fields[1..], c));
      SplitJoin(fields[1..], c);
      assert fields == [fields[0]] + fields[1..];
    } else {
      assert IndexOf(fields[0], c) == |fields[0]|;
    }
  }

  // ---------------------------------------------------------------------
  // Lines

  predicate EndsWithCR(s: string) {
    |s| > 0 && s[|s| - 1] == '\r'
  }

  function StripCR(s: string): string {
    if EndsWithCR(s) then s[..|s| - 1] else s
  }

  /** `s.lines()`: split after every '\n'; a piece that ended in '\n' loses
      it and then one '\r' before it; a final piece without '\n' is kept as
      it is; no empty piece is produced after a final '\n'. */
  function Lines(s: string): seq<string>
    decreases |s|
  {
    if s == [] then []
    else
      var i := IndexOf(s, '\n');
      if i == |s| then [s] else [StripCR(s[..i])] + Lines(s[i + 1..])
  }

  /** Every line followed by '\n'. */
  function JoinLines(ls: seq<string>): string {
    if ls == [] then [] else ls[0] + "\n" + JoinLines(ls[1..])
  }

  lemma JoinLinesAppend(ls: seq<string>, l: string)
    ensures JoinLines(ls + [l]) == JoinLines(ls) + l + "\n"
  {
    if ls != [] {
      assert (ls + [l])[1..] == ls[1..] + [l];
    } else {
      assert JoinLines([l]) == l + "\n" + JoinLines([]);
    }
  }

  lemma {:induction false} LinesJoinLines(ls: seq<string>)
    requires forall k :: 0 <= k < |ls| ==> '\n' !in ls[k] && !EndsWithCR(ls[k])
    ensures Lines(JoinLines(ls)) == ls
  {
    if ls != [] {
      var rest := JoinLines(ls[1..]);
      var s := ls[0] + "\n" + rest;
      IndexOfAfter(ls[0], '\n', rest);
      assert s[..|ls[0]|] == ls[0];
      assert s[|ls[0]| + 1..] == rest;
      LinesJoinLines(ls[1..]);
    }
  }

  // ---------------------------------------------------------------------
  // Ordering of keys

  /** `a < b` for Rust `String`s: byte-wise comparison of UTF-8, which is the
      order of code points. */
  predicate LexLess(a: string, b: string)
    decreases |a|
  {
    if |a| == 0 then |b| > 0
    else if |b| == 0 then false
    else if a[0] != b[0] then a[0] < b[0]
    else LexLess(a[1..], b[1..])
  }

  lemma {:induction false} LexIrreflexive(a: string)
    ensures !LexLess(a, a)
  {
    if |a| > 0 {
      LexIrreflexive(a[1..]);
    }
  }

  lemma {:induction false} LexTransitive(a: string, b: string, c: string)
    requires LexLess(a, b) && LexLess(b, c)
    ensures LexLess(a, c)
    decreases |a|
  {
    if |a| > 0 && |b| > 0 && |c| > 0 && a[0] == b[0] && b[0] == c[0] {
      LexTransitive(a[1..], b[1..], c[1..]);
    }
  }

  lemma {:induction false} LexTotal(a: string, b: string)
    requires a != b
    ensures LexLess(a, b) || LexLess(b, a)
    decreases |a|
  {
    if |a| > 0 && |b| > 0 && a[0] == b[0] {
      assert a == [a[0]] + a[1..] && b == [b[0]] + b[1..];
      LexTotal(a[1..], b[1..]);
    }
  }

  lemma LexAsymmetric(a: string, b: string)
    requires LexLess(a, b)
    ensures !LexLess(b, a)
  {
    if LexLess(b, a) {
      LexTransitive(a, b, a);
      LexIrreflexive(a);
    }
  }

  /** `k` is the smallest element of `s`. */
  predicate IsLeast(k: string, s: set<string>) {
    k in s && forall j :: j in s ==> j == k || LexLess(k, j)
  }

  lemma {:induction false} LeastExists(s: set<string>)
    requires s != {}
    ensures exists k :: IsLeast(k, s)
    decreases |s|
  {
    var x :| x in s;
    if s != {x} {
      LeastExists(s - {x});
      var m :| IsLeast(m, s - {x});
      if LexLess(x, m) {
        forall j | j in s && j != x ensures LexLess(x, j) {
          if j != m {
            LexTransitive(x, m, j);
          }
        }
        assert IsLeast(x, s);
      } else {
        LexTotal(x, m);
        assert IsLeast(m, s);
      }
    } else {
      assert IsLeast(x, s);
    }
  }

  lemma LeastUnique(k: string, k': string, s: set<string>)
    requires IsLeast(k, s) && IsLeast(k', s)
    ensures k == k'
  {
    if k != k' {
      LexAsymmetric(k, k');
    }
  }

  ghost function Least(s: set<string>): (k: string)
    requires s != {}
    ensures IsLeast(k, s)
  {
    LeastExists(s);
    var k :| IsLeast(k, s); k
  }

  predicate StrictlySorted(ks: seq<string>) {
    forall i, j :: 0 <= i < j < |ks| ==> LexLess(ks[i], ks[j])
  }

  /** The keys of a `BTreeMap<String, _>` in the order its iterator yields
      them: ascending, each once (see SortedKeysSpec). */
  ghost function SortedKeys(s: set<string>): seq<string>
    decreases |s|
  {
    if s == {} then [] else var k := Least(s); [k] + SortedKeys(s - {k})
  }

  lemma {:induction false} SortedKeysSpec(s: set<string>)
    ensures |SortedKeys(s)| == |s|
    ensures forall k :: k in SortedKeys(s) <==> k in s
    ensures StrictlySorted(SortedKeys(s))
    decreases |s|
  {
    if s != {} {
      var k := Least(s);
      SortedKeysSpec(s - {k});
    }
  }

  /** Only the members of `s` are listed. */
  lemma SortedKeysMembers(s: set<string>)
    ensures forall i :: 0 <= i < |SortedKeys(s)| ==> SortedKeys(s)[i] in s
  {
    SortedKeysSpec(s);
  }

  /** Exactly the members of `s` are listed. */
  lemma SortedKeysSame(s: set<string>)
    ensures forall k :: k in SortedKeys(s) <==> k in s
    ensures forall i :: 0 <= i < |SortedKeys(s)| ==> SortedKeys(s)[i] in s
  {
    SortedKeysSpec(s);
  }

  lemma StrictlySortedDistinct(ks: seq<string>, i: nat, j: nat)
    requires StrictlySorted(ks)
    requires i < |ks| && j < |ks| && i != j
    ensures ks[i] != ks[j]
  {
    if i < j {
      LexIrreflexive(ks[i]);
    } else {
      LexIrreflexive(ks[j]);
    }
  }

  lemma SortedKeysStep(s: set<string>, k: string)
    requires IsLeast(k, s)
    ensures SortedKeys(s) == [k] + SortedKeys(s - {k})
  {
    LeastUnique(k, Least(s), s);
  }

  /** Iterating a map's keys in ascending order. */
  method SortedPaths<V>(m: map<string, V>) returns (keys: seq<string>)
    ensures keys == SortedKeys(m.Keys)
  {
    keys := [];
    var rest := m.Keys;
    while rest != {}
      invariant keys + SortedKeys(rest) == SortedKeys(m.Keys)
      decreases |rest|
    {
      LeastExists(rest);
      var k :| IsLeast(k, rest);
      SortedKeysStep(rest, k);
      assert keys + SortedKeys(rest) == (keys + [k]) + SortedKeys(rest - {k});
      keys := keys + [k];
      rest := rest - {k};
    }
  }
}
