/**
  The JavaScript string primitives the core relies on: the whitespace set used
  by `\s`, `trim` and `trimEnd`, `split` on a single character, `indexOf`,
  `slice` and the decimal rendering of integers in template strings.
  A string is a sequence of code points.
 */
module JsString {

  /** ECMAScript WhiteSpace or LineTerminator: the class `\s` matches and the
      characters `trim`, `trimStart` and `trimEnd` remove. */
  predicate IsSpace(c: char)
  {
    || c == '\t' || c == '\n' || c == '\U{000B}' || c == '\U{000C}' || c == '\r'
    || c == ' ' || c == '\U{00A0}' || c == '\U{1680}'
    || ('\U{2000}' <= c <= '\U{200A}')
    || c == '\U{2028}' || c == '\U{2029}' || c == '\U{202F}' || c == '\U{205F}'
    || c == '\U{3000}' || c == '\U{FEFF}'
  }

  function Min(a: int, b: int): int { if a <= b then a else b }
  function Max(a: int, b: int): int { if a >= b then a else b }

  /** `s.trimStart()`: drops the maximal leading run of whitespace. */
  function TrimStart(s: string): (r: string)
    ensures |r| <= |s| && r == s[|s| - |r|..]
    ensures forall i | 0 <= i < |s| - |r| :: IsSpace(s[i])
    ensures |r| > 0 ==> !IsSpace(r[0])
    decreases |s|
  {
    if |s| > 0 && IsSpace(s[0]) then TrimStart(s[1..]) else s
  }

  /** `s.trimEnd()`: drops the maximal trailing run of whitespace. */
  function TrimEnd(s: string): (r: string)
    ensures |r| <= |s| && r == s[..|r|]
    ensures forall i | |r| <= i < |s| :: IsSpace(s[i])
    ensures |r| > 0 ==> !IsSpace(r[|r| - 1])
    decreases |s|
  {
    if |s| > 0 && IsSpace(s[|s| - 1]) then TrimEnd(s[..|s| - 1]) else s
  }

  /** `s.trim()`. */
  function Trim(s: string): string
  {
    TrimStart(TrimEnd(s))
  }

  /** What trim leaves is a contiguous piece of its input, with no whitespace
      at either end. */
  lemma TrimIsInfix(s: string) returns (a: nat, b: nat)
    ensures a <= b <= |s| && Trim(s) == s[a..b]
    ensures forall i | 0 <= i < a :: IsSpace(s[i])
    ensures forall i | b <= i < |s| :: IsSpace(s[i])
    ensures |Trim(s)| > 0 ==> !IsSpace(Trim(s)[0]) && !IsSpace(Trim(s)[|Trim(s)| - 1])
  {
    var e := TrimEnd(s);
    b := |e|;
    a := |e| - |TrimStart(e)|;
    assert Trim(s) == e[a..] == s[a..b];
    forall i | 0 <= i < a
      ensures IsSpace(s[i])
    {
      assert s[i] == e[i];
    }
  }

  /** `s.slice(from, to)` for non-negative bounds: both are clamped to the
      length, and an empty string results when from >= to. */
  function Slice(s: string, from: nat, to: nat): (r: string)
    ensures |r| <= Max(0, to - from)
    ensures |r| <= |s|
    ensures from <= to <= |s| ==> r == s[from..to]
  {
    var a := Min(from, |s|);
    var b := Min(to, |s|);
    if a < b then s[a..b] else ""
  }

  predicate StartsWith(s: string, prefix: string)
  {
    |prefix| <= |s| && s[..|prefix|] == prefix
  }

  /** The needle occurs in the haystack starting at position i. */
  predicate OccursAt(hay: string, needle: string, i: nat)
  {
    i + |needle| <= |hay| && hay[i..i + |needle|] == needle
  }

  /** `hay.indexOf(needle)`: the first position where the needle occurs, or -1. */
  function IndexOf(hay: string, needle: string): (r: int)
    ensures -1 <= r
    ensures r == -1 <==> forall i: nat :: !OccursAt(hay, needle, i)
    ensures r >= 0 ==> OccursAt(hay, needle, r) && forall i: nat | i < r :: !OccursAt(hay, needle, i)
  {
    IndexFrom(hay, needle, 0)
  }

  function IndexFrom(hay: string, needle: string, from: nat): (r: int)
    requires forall i: nat | i < from :: !OccursAt(hay, needle, i)
    ensures -1 <= r
    ensures r == -1 <==> forall i: nat :: !OccursAt(hay, needle, i)
    ensures r >= 0 ==> from <= r && OccursAt(hay, needle, r) && forall i: nat | i < r :: !OccursAt(hay, needle, i)
    decreases |hay| - from
  {
    if from + |needle| > |hay| then
      assert forall i: nat | i >= from :: !OccursAt(hay, needle, i);
      -1
    else if hay[from..from + |needle|] == needle then
      assert OccursAt(hay, needle, from);
      from
    else IndexFrom(hay, needle, from + 1)
  }

  /** `s.split(sep)` for a one-character separator: the maximal pieces
      between separators, empty pieces included ("" gives [""]). */
  function Split(s: string, sep: char): (r: seq<string>)
    ensures |r| >= 1
    ensures forall p <- r :: sep !in p
    decreases |s|
  {
    if |s| == 0 then [""]
    else if s[0] == sep then [""] + Split(s[1..], sep)
    else
      var rest := Split(s[1..], sep);
      [[s[0]] + rest[0]] + rest[1..]
  }

  /** `pieces.join(sep)`. */
  function Join(pieces: seq<string>, sep: string): string
  {
    if |pieces| == 0 then ""
    else if |pieces| == 1 then pieces[0]
    else pieces[0] + sep + Join(pieces[1..], sep)
  }

  /** Split loses nothing: joining the pieces with the separator gives back
      the input. */
  lemma {:induction false} JoinSplit(s: string, sep: char)
    ensures Join(Split(s, sep), [sep]) == s
    decreases |s|
  {
    if |s| == 0 {
    } else {
      JoinSplit(s[1..], sep);
      var rest := Split(s[1..], sep);
      if s[0] == sep {
        assert Split(s, sep) == [""] + rest;
        JoinEmptyHead(rest, [sep]);
      } else {
        assert Split(s, sep) == [[s[0]] + rest[0]] + rest[1..];
        JoinExtendHead(s[0], rest, [sep]);
      }
      assert s == [s[0]] + s[1..];
    }
  }

  /** An empty first piece contributes only the separator after it. */
  lemma JoinEmptyHead(rest: seq<string>, sep: string)
    requires |rest| >= 1
    ensures Join([""] + rest, sep) == sep + Join(rest, sep)
  {
    assert ([""] + rest)[1..] == rest;
  }

  /** Prefixing the first piece prefixes the joined string. */
  lemma JoinExtendHead(c: char, rest: seq<string>, sep: string)
    requires |rest| >= 1
    ensures Join([[c] + rest[0]] + rest[1..], sep) == [c] + Join(rest, sep)
  {
    var r := [[c] + rest[0]] + rest[1..];
    if |rest| > 1 {
      assert r[1..] == rest[1..];
    }
  }

  // Decimal rendering of integers, as a template string prints them.

  predicate IsDigit(c: char) { '0' <= c <= '9' }

  function DigitChar(d: nat): (c: char)
    requires d < 10
    ensures IsDigit(c) && DigitValue(c) == d
  {
    ['0', '1', '2', '3', '4', '5', '6', '7', '8', '9'][d]
  }

  function DigitValue(c: char): nat
    requires IsDigit(c)
  {
    (c as int - '0' as int) as nat
  }

  /** `String(n)` for a natural number: its decimal digits, no leading zero. */
  function NatToString(n: nat): (r: string)
    ensures |r| >= 1
    ensures forall c <- r :: IsDigit(c)
    ensures |r| > 1 ==> r[0] != '0'
    decreases n
  {
    if n < 10 then [DigitChar(n)] else NatToString(n / 10) + [DigitChar(n % 10)]
  }

  /** `String(n)` for an integer: a minus sign before negative numbers. */
  function IntToString(n: int): (r: string)
    ensures |r| >= 1
  {
    if n < 0 then "-" + NatToString(-n) else NatToString(n)
  }

  /** The value of a string of decimal digits. */
  function ParseDigits(s: string): nat
    requires forall c <- s :: IsDigit(c)
  {
    if |s| == 0 then 0 else 10 * ParseDigits(s[..|s| - 1]) + DigitValue(s[|s| - 1])
  }

  /** Reading the digits back gives the number: the rendering is lossless. */
  lemma {:induction false} ParseNatToString(n: nat)
    ensures ParseDigits(NatToString(n)) == n
    decreases n
  {
    if n >= 10 {
      ParseNatToString(n / 10);
      var s := NatToString(n);
      assert s[..|s| - 1] == NatToString(n / 10);
    }
  }

  /** So distinct numbers render as distinct strings. */
  lemma NatToStringInjective(m: nat, n: nat)
    requires NatToString(m) == NatToString(n)
    ensures m == n
  {
    ParseNatToString(m);
    ParseNatToString(n);
  }

  /** The longest prefix of decimal digits. */
  function DigitPrefix(s: string): (r: nat)
    ensures r <= |s|
    ensures forall i | 0 <= i < r :: IsDigit(s[i])
    ensures r < |s| ==> !IsDigit(s[r])
  {
    if |s| == 0 || !IsDigit(s[0]) then 0 else 1 + DigitPrefix(s[1..])
  }

  /** A rendered number followed by a non-digit is read back whole. */
  lemma {:induction false} DigitPrefixOfRendered(n: nat, rest: string)
    requires |rest| > 0 ==> !IsDigit(rest[0])
    ensures DigitPrefix(NatToString(n) + rest) == |NatToString(n)|
  {
    var s := NatToString(n);
    DigitsThenStop(s, rest);
  }

  lemma {:induction false} DigitsThenStop(s: string, rest: string)
    requires forall c <- s :: IsDigit(c)
    requires |rest| > 0 ==> !IsDigit(rest[0])
    ensures DigitPrefix(s + rest) == |s|
    decreases |s|
  {
    if |s| > 0 {
      assert (s + rest)[1..] == s[1..] + rest;
      DigitsThenStop(s[1..], rest);
    } else {
      assert s + rest == rest;
    }
  }

  /** The decimal number at the start of a string and the text after it. */
  function ReadNat(s: string): (r: (nat, string))
    ensures r.1 == s[DigitPrefix(s)..]
  {
    var k := DigitPrefix(s);
    (ParseDigits(s[..k]), s[k..])
  }

  /** A rendered number followed by a non-digit reads back as that number
      and the text after it. */
  lemma ReadNatOfRendered(n: nat, rest: string)
    requires |rest| > 0 ==> !IsDigit(rest[0])
    ensures ReadNat(NatToString(n) + rest) == (n, rest)
  {
    var s := NatToString(n) + rest;
    DigitPrefixOfRendered(n, rest);
    assert s[..|NatToString(n)|] == NatToString(n);
    assert s[|NatToString(n)|..] == rest;
    ParseNatToString(n);
  }
}
