/**
  The text normaliser that the explorer (`normalizeQuery`), the search worker
  (`normalizeQuery`) and the OCR ingestion script (`normalizeText`) each define
  with the same body: NFKC, lowercase, every character that is not a letter,
  a number or whitespace becomes a space, whitespace runs collapse to one
  space, and the ends are trimmed. It is defined once here and used by all
  three.
 */
module Normalizer {
  import opened JsString

  /** The Unicode data the normaliser consults, left uninterpreted: NFKC and
      lowercase as mappings from a character to the string it becomes, and
      the general categories Letter (`\p{L}`) and Number (`\p{N}`). */
  datatype Unicode = Unicode(
    nfkc: char -> string,
    lower: char -> string,
    isLetter: char -> bool,
    isNumber: char -> bool)

  /** `s.normalize("NFKC")`, character by character. */
  function Nfkc(u: Unicode, s: string): string
  {
    if |s| == 0 then "" else u.nfkc(s[0]) + Nfkc(u, s[1..])
  }

  /** `s.toLowerCase()`, character by character. */
  function Lower(u: Unicode, s: string): string
  {
    if |s| == 0 then "" else u.lower(s[0]) + Lower(u, s[1..])
  }

  /** What NFKC followed by lowercase makes of one character. */
  function FoldChar(u: Unicode, c: char): string
  {
    Lower(u, u.nfkc(c))
  }

  /** NFKC followed by lowercase, taken one character at a time. */
  function Fold(u: Unicode, s: string): string
  {
    if |s| == 0 then "" else FoldChar(u, s[0]) + Fold(u, s[1..])
  }

  /** Characters the pattern `[^\p{L}\p{N}\s]` does not match. */
  predicate IsKept(u: Unicode, c: char)
  {
    u.isLetter(c) || u.isNumber(c) || IsSpace(c)
  }

  /** `.replace(/[^\p{L}\p{N}\s]/gu, " ")`. */
  function ReplaceOthers(u: Unicode, s: string): (r: string)
    ensures |r| == |s|
    ensures forall i | 0 <= i < |s| :: r[i] == (if IsKept(u, s[i]) then s[i] else ' ')
  {
    seq(|s|, i requires 0 <= i < |s| => if IsKept(u, s[i]) then s[i] else ' ')
  }

  /** `.replace(/\s+/g, " ")`: every maximal whitespace run becomes one space. */
  function Collapse(s: string): (r: string)
    ensures |s| == 0 <==> |r| == 0
    ensures |s| > 0 ==> r[0] == (if IsSpace(s[0]) then ' ' else s[0])
    ensures forall i | 0 <= i < |r| :: r[i] == ' ' || !IsSpace(r[i])
    ensures forall i | 0 <= i < |r| - 1 :: !(r[i] == ' ' && r[i + 1] == ' ')
    decreases |s|
  {
    if |s| == 0 then ""
    else
      var rest := if IsSpace(s[0]) then TrimStart(s[1..]) else s[1..];
      var c := Collapse(rest);
      assert |c| > 0 && IsSpace(s[0]) ==> c[0] != ' ' by {
        if |c| > 0 && IsSpace(s[0]) {
          assert !IsSpace(rest[0]);
        }
      }
      [if IsSpace(s[0]) then ' ' else s[0]] + c
  }

  /** Collapsing introduces no character other than the space. */
  lemma {:induction false} CollapseChars(s: string)
    ensures forall x | x in Collapse(s) :: x == ' ' || x in s
    decreases |s|
  {
    if |s| > 0 {
      var rest := if IsSpace(s[0]) then TrimStart(s[1..]) else s[1..];
      CollapseChars(rest);
      assert rest == s[|s| - |rest|..];
      assert forall x | x in rest :: x in s;
    }
  }

  /** The normaliser. */
  function Normalize(u: Unicode, s: string): string
  {
    Trim(Collapse(ReplaceOthers(u, Lower(u, Nfkc(u, s)))))
  }

  /** The normaliser as a function value, for the objects that hold it. */
  function QueryNormalizer(u: Unicode): string -> string
  {
    s => Normalize(u, s)
  }

  /** The shape of normalised text: letters, numbers and single spaces, with
      no space at either end. */
  predicate Clean(u: Unicode, t: string)
  {
    && (forall i | 0 <= i < |t| :: t[i] == ' ' || ((u.isLetter(t[i]) || u.isNumber(t[i])) && !IsSpace(t[i])))
    && (|t| > 0 ==> t[0] != ' ' && t[|t| - 1] != ' ')
    && (forall i | 0 <= i < |t| - 1 :: !(t[i] == ' ' && t[i + 1] == ' '))
  }

  /** Trimming collapsed text leaves single spaces and characters of the
      input that are not whitespace, with no space at either end. */
  lemma TrimCollapseShape(r: string)
    ensures var t := Trim(Collapse(r));
      && (forall i | 0 <= i < |t| :: t[i] == ' ' || (!IsSpace(t[i]) && t[i] in r))
      && (|t| > 0 ==> t[0] != ' ' && t[|t| - 1] != ' ')
      && (forall i | 0 <= i < |t| - 1 :: !(t[i] == ' ' && t[i + 1] == ' '))
  {
    var c := Collapse(r);
    var a, b := TrimEnds(c);
    CollapseChars(r);
    InfixOfCollapsed(c, a, b, r);
  }

  /** Where trim cuts: the kept part starts and ends with a non-space. */
  lemma TrimEnds(s: string) returns (a: nat, b: nat)
    ensures a <= b <= |s| && Trim(s) == s[a..b]
    ensures a < b ==> !IsSpace(s[a]) && !IsSpace(s[b - 1])
  {
    a, b := TrimIsInfix(s);
    assert a < b ==> s[a] == Trim(s)[0] && s[b - 1] == Trim(s)[|Trim(s)| - 1];
  }

  lemma InfixOfCollapsed(c: string, a: nat, b: nat, r: string)
    requires a <= b <= |c|
    requires forall i | 0 <= i < |c| :: c[i] == ' ' || !IsSpace(c[i])
    requires forall i | 0 <= i < |c| - 1 :: !(c[i] == ' ' && c[i + 1] == ' ')
    requires forall x | x in c :: x == ' ' || x in r
    requires a < b ==> !IsSpace(c[a]) && !IsSpace(c[b - 1])
    ensures var t := c[a..b];
      && (forall i | 0 <= i < |t| :: t[i] == ' ' || (!IsSpace(t[i]) && t[i] in r))
      && (|t| > 0 ==> t[0] != ' ' && t[|t| - 1] != ' ')
      && (forall i | 0 <= i < |t| - 1 :: !(t[i] == ' ' && t[i + 1] == ' '))
  {
    var t := c[a..b];
    forall i | 0 <= i < |t|
      ensures t[i] == ' ' || (!IsSpace(t[i]) && t[i] in r)
    {
      assert t[i] == c[a + i];
    }
    forall i | 0 <= i < |t| - 1
      ensures !(t[i] == ' ' && t[i + 1] == ' ')
    {
      assert t[i] == c[a + i] && t[i + 1] == c[a + i + 1];
    }
  }

  /** The normaliser's output is always clean. */
  lemma NormalizeIsClean(u: Unicode, s: string)
    ensures Clean(u, Normalize(u, s))
  {
    var r := ReplaceOthers(u, Lower(u, Nfkc(u, s)));
    TrimCollapseShape(r);
    var t := Normalize(u, s);
    assert t == Trim(Collapse(r));
    forall i | 0 <= i < |t|
      ensures t[i] == ' ' || ((u.isLetter(t[i]) || u.isNumber(t[i])) && !IsSpace(t[i]))
    {
      if t[i] != ' ' {
        var j :| 0 <= j < |r| && r[j] == t[i];
      }
    }
  }

  /** The assumption under which normalising twice changes nothing: every
      character that NFKC-then-lowercase produces is left as it is by
      NFKC-then-lowercase, and so is the space. */
  ghost predicate Stable(u: Unicode)
  {
    && (forall c, d | d in FoldChar(u, c) :: FoldChar(u, d) == [d])
    && FoldChar(u, ' ') == " "
  }

  lemma {:induction false} NfkcAppend(u: Unicode, a: string, b: string)
    ensures Nfkc(u, a + b) == Nfkc(u, a) + Nfkc(u, b)
    decreases |a|
  {
    if |a| > 0 {
      assert (a + b)[1..] == a[1..] + b;
      NfkcAppend(u, a[1..], b);
    } else {
      assert a + b == b;
    }
  }

  lemma {:induction false} LowerAppend(u: Unicode, a: string, b: string)
    ensures Lower(u, a + b) == Lower(u, a) + Lower(u, b)
    decreases |a|
  {
    if |a| > 0 {
      assert (a + b)[1..] == a[1..] + b;
      LowerAppend(u, a[1..], b);
    } else {
      assert a + b == b;
    }
  }

  /** Lowercasing the NFKC form of a whole string is folding it character by
      character. */
  lemma {:induction false} LowerNfkcIsFold(u: Unicode, s: string)
    ensures Lower(u, Nfkc(u, s)) == Fold(u, s)
    decreases |s|
  {
    if |s| > 0 {
      LowerAppend(u, u.nfkc(s[0]), Nfkc(u, s[1..]));
      LowerNfkcIsFold(u, s[1..]);
    }
  }

  /** Under Stable, every character of a folded string folds to itself. */
  lemma {:induction false} FoldedCharsAreFixed(u: Unicode, s: string, d: char)
    requires Stable(u)
    requires d in Fold(u, s)
    ensures FoldChar(u, d) == [d]
    decreases |s|
  {
    if d !in FoldChar(u, s[0]) {
      FoldedCharsAreFixed(u, s[1..], d);
    }
  }

  /** A string of characters that fold to themselves folds to itself. */
  lemma {:induction false} FoldOfFixed(u: Unicode, t: string)
    requires forall i | 0 <= i < |t| :: FoldChar(u, t[i]) == [t[i]]
    ensures Fold(u, t) == t
    decreases |t|
  {
    if |t| > 0 {
      FoldOfFixed(u, t[1..]);
      assert t == [t[0]] + t[1..];
    }
  }

  /** Whitespace is only the plain space, never two in a row. */
  predicate Collapsed(t: string)
  {
    && (forall i | 0 <= i < |t| :: IsSpace(t[i]) ==> t[i] == ' ')
    && (forall i | 0 <= i < |t| - 1 :: !(t[i] == ' ' && t[i + 1] == ' '))
  }

  lemma {:induction false} CollapseOfCollapsed(t: string)
    requires Collapsed(t)
    ensures Collapse(t) == t
    decreases |t|
  {
    if |t| > 0 {
      assert Collapsed(t[1..]);
      CollapseOfCollapsed(t[1..]);
      if IsSpace(t[0]) {
        assert |t| > 1 ==> !IsSpace(t[1]);
        assert TrimStart(t[1..]) == t[1..];
      }
      assert t == [t[0]] + t[1..];
    }
  }

  /** Clean text is left alone by the replace, collapse and trim steps. */
  lemma CleanupOfClean(u: Unicode, t: string)
    requires Clean(u, t)
    ensures Trim(Collapse(ReplaceOthers(u, t))) == t
  {
    assert ReplaceOthers(u, t) == t;
    CollapseOfCollapsed(t);
    assert |t| > 0 ==> !IsSpace(t[0]) && !IsSpace(t[|t| - 1]);
    assert TrimEnd(t) == t;
    assert TrimStart(t) == t;
  }

  /** Every character of normalised text is a space or comes from the
      lowercased NFKC form of the input. */
  lemma NormalizedCharsFrom(u: Unicode, s: string)
    ensures forall x | x in Normalize(u, s) :: x == ' ' || x in Lower(u, Nfkc(u, s))
  {
    CleanupChars(u, Lower(u, Nfkc(u, s)));
  }

  /** The replace, collapse and trim steps add no character but the space. */
  lemma CleanupChars(u: Unicode, f: string)
    ensures forall x | x in Trim(Collapse(ReplaceOthers(u, f))) :: x == ' ' || x in f
  {
    var r := ReplaceOthers(u, f);
    TrimCollapseShape(r);
    var t := Trim(Collapse(r));
    forall x | x in t
      ensures x == ' ' || x in f
    {
      var i :| 0 <= i < |t| && t[i] == x;
      if x != ' ' {
        var j :| 0 <= j < |r| && r[j] == x;
        assert x == f[j];
      }
    }
  }

  /** Under Stable, every character of normalised text folds to itself. */
  lemma NormalizedCharsAreFixed(u: Unicode, s: string)
    requires Stable(u)
    ensures forall i | 0 <= i < |Normalize(u, s)| :: FoldChar(u, Normalize(u, s)[i]) == [Normalize(u, s)[i]]
  {
    var t := Normalize(u, s);
    NormalizedCharsFrom(u, s);
    LowerNfkcIsFold(u, s);
    forall i | 0 <= i < |t|
      ensures FoldChar(u, t[i]) == [t[i]]
    {
      assert t[i] in t;
      if t[i] != ' ' {
        FoldedCharsAreFixed(u, s, t[i]);
      }
    }
  }

  /** Normalising normalised text gives it back unchanged, given that folding
      is idempotent character by character. */
  lemma NormalizeIdempotent(u: Unicode, s: string)
    requires Stable(u)
    ensures Normalize(u, Normalize(u, s)) == Normalize(u, s)
  {
    var t := Normalize(u, s);
    NormalizedCharsAreFixed(u, s);
    FoldOfFixed(u, t);
    LowerNfkcIsFold(u, t);
    NormalizeIsClean(u, s);
    CleanupOfClean(u, t);
  }

  /** A small instance of the tables: ASCII letters and digits, with the
      upper-case letters lowered and every character its own NFKC form. */
  const Ascii: Unicode := Unicode(
    c => [c],
    c => if 'A' <= c <= 'Z' then [(c as int + 32) as char] else [c],
    c => ('a' <= c <= 'z') || ('A' <= c <= 'Z'),
    c => '0' <= c <= '9')

  /** The hypothesis of NormalizeIdempotent can be met. */
  lemma AsciiIsStable()
    ensures Stable(Ascii)
  {
    forall c, d | d in FoldChar(Ascii, c)
      ensures FoldChar(Ascii, d) == [d]
    {
      AsciiFoldChar(c);
      AsciiFoldChar(d);
    }
    AsciiFoldChar(' ');
  }

  lemma AsciiFoldChar(c: char)
    ensures FoldChar(Ascii, c) == if 'A' <= c <= 'Z' then [(c as int + 32) as char] else [c]
  {
    assert Ascii.nfkc(c) == [c];
    assert [c][1..] == "";
    assert Lower(Ascii, [c]) == Ascii.lower(c) + Lower(Ascii, "");
  }

  /** Empty input normalises to the empty string, which means "no query". */
  lemma NormalizeEmpty(u: Unicode)
    ensures Normalize(u, "") == ""
  {
  }
}
