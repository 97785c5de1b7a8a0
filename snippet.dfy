/**
  The two pure helpers the suggestion list renders with: the context snippet
  (`clipContext`) and the DOM id of a suggestion (`suggestionDomId`).
 */
module Snippet {
  import opened JsString
  import opened Normalizer

  /** The display budget of a context snippet, `maxLength = 78`. */
  const DefaultMaxLength: nat := 78

  /** `query.split(" ").find((piece) => piece.length >= 2) ?? ""`. */
  function FirstToken(query: string): (token: string)
    ensures token == "" ==> forall p <- Split(query, ' ') :: |p| < 2
    ensures token != "" ==> |token| >= 2 && ' ' !in token
    ensures token != "" ==> exists k | 0 <= k < |Split(query, ' ')| ::
      Split(query, ' ')[k] == token && forall j | 0 <= j < k :: |Split(query, ' ')[j]| < 2
  {
    FirstLong(Split(query, ' '))
  }

  function FirstLong(pieces: seq<string>): (t: string)
    ensures t == "" ==> forall p <- pieces :: |p| < 2
    ensures t != "" ==> |t| >= 2 && exists k | 0 <= k < |pieces| ::
      pieces[k] == t && forall j | 0 <= j < k :: |pieces[j]| < 2
  {
    if |pieces| == 0 then ""
    else if |pieces[0]| >= 2 then pieces[0]
    else
      var t := FirstLong(pieces[1..]);
      if t == "" then t
      else
        var k :| 0 <= k < |pieces[1..]| && pieces[1..][k] == t && forall j | 0 <= j < k :: |pieces[1..][j]| < 2;
        assert pieces[k + 1] == t && forall j | 0 <= j < k + 1 :: |pieces[j]| < 2;
        t
  }

  /** The first `maxLength` characters, trailing whitespace removed, then "...". */
  function Truncated(text: string, maxLength: nat): string
  {
    TrimEnd(Slice(text, 0, maxLength)) + "..."
  }

  /** Where the window starts: `Math.max(0, index - Math.floor((maxLength -
      token.length) / 2))` (Dafny's `/` by 2 rounds down, as Math.floor does). */
  function WindowStart(index: nat, tokenLength: nat, maxLength: nat): nat
  {
    Max(0, index - (maxLength - tokenLength) / 2)
  }

  /** Where the window ends: `Math.min(text.length, start + maxLength)`. */
  function WindowEnd(textLength: nat, start: nat, maxLength: nat): nat
  {
    Min(textLength, start + maxLength)
  }

  /** The clipped window with an ellipsis on each side that was cut. */
  function Windowed(text: string, start: nat, maxLength: nat): string
  {
    var end := WindowEnd(|text|, start, maxLength);
    (if start > 0 then "..." else "") + Trim(Slice(text, start, end)) + (if end < |text| then "..." else "")
  }

  /** `clipContext(text, query, maxLength)`. The token is looked up in the
      normalised text, and the offset found there is used on the raw text. */
  function ClipContext(u: Unicode, text: string, query: string, maxLength: nat): (r: string)
    ensures |text| <= maxLength ==> r == text
    ensures |r| <= maxLength + 6
  {
    if |text| <= maxLength then text
    else
      TruncatedIsPrefix(text, maxLength);
      var token := FirstToken(query);
      if token == "" then Truncated(text, maxLength)
      else
        var index := IndexOf(Normalize(u, text), token);
        if index < 0 then Truncated(text, maxLength)
        else
          var start := WindowStart(index, |token|, maxLength);
          WindowMarkers(text, start, maxLength);
          Windowed(text, start, maxLength)
  }

  /** Which of the three outcomes clipContext takes for a text over budget:
      a plain truncation when the query has no token of two or more
      characters or the normalised text does not contain it, the window
      around the token's offset otherwise. */
  lemma ClipCases(u: Unicode, text: string, query: string, maxLength: nat)
    requires |text| > maxLength
    ensures var token := FirstToken(query);
      && (token == "" ==> ClipContext(u, text, query, maxLength) == Truncated(text, maxLength))
      && (token != "" && IndexOf(Normalize(u, text), token) < 0 ==>
            ClipContext(u, text, query, maxLength) == Truncated(text, maxLength))
      && (token != "" && IndexOf(Normalize(u, text), token) >= 0 ==>
            ClipContext(u, text, query, maxLength)
            == Windowed(text, WindowStart(IndexOf(Normalize(u, text), token), |token|, maxLength), maxLength))
  {
  }

  /** The truncation keeps a prefix of the text of at most `maxLength`
      characters that does not end in whitespace. */
  lemma TruncatedIsPrefix(text: string, maxLength: nat)
    requires |text| > maxLength
    ensures var t := Truncated(text, maxLength);
      && t[|t| - 3..] == "..."
      && |t| <= maxLength + 3
      && t[..|t| - 3] == text[..|t| - 3]
      && (|t| > 3 ==> !IsSpace(t[|t| - 4]))
  {
    var p := Slice(text, 0, maxLength);
    assert p == text[..maxLength];
    var e := TrimEnd(p);
    var t := Truncated(text, maxLength);
    assert t == e + "...";
    assert t[..|t| - 3] == e == text[..|e|];
  }

  /** The window: it never extends past the text, never spans more than
      `maxLength` characters, starts at or before the token and, when the
      token fits the budget, ends at or after it; when neither end is clamped
      the token sits in its middle. */
  lemma WindowBounds(textLength: nat, index: nat, tokenLength: nat, maxLength: nat)
    ensures var start := WindowStart(index, tokenLength, maxLength);
      var end := WindowEnd(textLength, start, maxLength);
      && end <= textLength
      && end - start <= maxLength
      && (tokenLength <= maxLength ==> start <= index && index + tokenLength <= start + maxLength)
      && (start <= textLength ==> start <= end)
      && (tokenLength <= maxLength && index + tokenLength <= textLength ==> start <= index && index + tokenLength <= end)
      && (start > 0 ==> start == index - (maxLength - tokenLength) / 2)
  {
  }

  /** The ellipsis markers: "..." in front exactly when the window starts
      after the beginning, "..." behind exactly when it stops before the end,
      so the snippet is at most six characters over budget. */
  lemma WindowMarkers(text: string, start: nat, maxLength: nat)
    ensures var w := Windowed(text, start, maxLength);
      var end := WindowEnd(|text|, start, maxLength);
      var core := Trim(Slice(text, start, end));
      && (start > 0 ==> w[..3] == "..." && w[3..] == core + (if end < |text| then "..." else ""))
      && (start == 0 ==> w == core + (if end < |text| then "..." else ""))
      && (end < |text| ==> w[|w| - 3..] == "...")
      && |core| <= maxLength
      && |w| <= maxLength + 6
  {
    var end := WindowEnd(|text|, start, maxLength);
    var piece := Slice(text, start, end);
    var core := Trim(piece);
    assert |core| <= |TrimEnd(piece)| <= |piece| <= maxLength;
    var pre: string := if start > 0 then "..." else "";
    var post: string := if end < |text| then "..." else "";
    var w := Windowed(text, start, maxLength);
    assert w == (pre + core) + post;
    ConcatSplits(pre + core, post);
    ConcatAssoc(pre, core, post);
    ConcatSplits(pre, core + post);
  }

  lemma ConcatAssoc(a: string, b: string, c: string)
    ensures (a + b) + c == a + (b + c)
  {
  }

  /** A concatenation splits back into its two parts. */
  lemma ConcatSplits(a: string, b: string)
    ensures (a + b)[..|a|] == a && (a + b)[|a|..] == b
  {
  }

  /** A run of non-whitespace inside a string survives trimming. */
  lemma TrimKeepsSolidInfix(s: string, needle: string, i: nat) returns (j: nat)
    requires |needle| > 0 && OccursAt(s, needle, i)
    requires forall k | 0 <= k < |needle| :: !IsSpace(needle[k])
    ensures OccursAt(Trim(s), needle, j)
  {
    var len := |needle|;
    assert !IsSpace(s[i]) by {
      assert s[i..i + len][0] == s[i];
      assert !IsSpace(needle[0]);
    }
    assert !IsSpace(s[i + len - 1]) by {
      assert s[i..i + len][len - 1] == s[i + len - 1];
      assert !IsSpace(needle[len - 1]);
    }
    var a, b := TrimAround(s, i, i + len - 1);
    OccursInWindow(s, needle, i, a, b);
    j := i - a;
  }

  /** Trimming keeps every character from one non-whitespace character to
      another. */
  lemma TrimAround(s: string, p: nat, q: nat) returns (a: nat, b: nat)
    requires p <= q < |s| && !IsSpace(s[p]) && !IsSpace(s[q])
    ensures a <= p && q < b <= |s| && Trim(s) == s[a..b]
  {
    a, b := TrimIsInfix(s);
  }

  /** The part of a text between two offsets that enclose an occurrence
      still contains it. */
  lemma OccursInWindow(text: string, needle: string, index: nat, start: nat, end: nat)
    requires OccursAt(text, needle, index)
    requires start <= index && index + |needle| <= end <= |text|
    ensures OccursAt(text[start..end], needle, index - start)
  {
    var w := text[start..end];
    forall k | 0 <= k < |needle|
      ensures w[index - start + k] == needle[k]
    {
      assert needle[k] == text[index..index + |needle|][k];
    }
    assert w[index - start..index - start + |needle|] == needle;
  }

  /** An occurrence survives adding text on either side. */
  lemma OccursInConcat(pre: string, core: string, post: string, needle: string, j: nat)
    requires OccursAt(core, needle, j)
    ensures OccursAt(pre + core + post, needle, |pre| + j)
  {
    assert (pre + core + post)[|pre| + j..|pre| + j + |needle|] == core[j..j + |needle|];
  }

  /** A word of normalised text holds no whitespace. */
  lemma CleanWordIsSolid(u: Unicode, text: string, word: string, index: nat)
    requires Clean(u, text) && OccursAt(text, word, index) && ' ' !in word
    ensures forall k | 0 <= k < |word| :: !IsSpace(word[k])
  {
    forall k | 0 <= k < |word|
      ensures !IsSpace(word[k])
    {
      assert word[k] == text[index + k];
    }
  }

  /** The window placed around an occurrence of a word without whitespace
      that fits the budget shows the word. */
  lemma WindowShowsSolidWord(text: string, word: string, index: nat, maxLength: nat)
    requires 0 < |word| <= maxLength && OccursAt(text, word, index)
    requires forall k | 0 <= k < |word| :: !IsSpace(word[k])
    ensures exists j: nat :: OccursAt(Windowed(text, WindowStart(index, |word|, maxLength), maxLength), word, j)
  {
    var start := WindowStart(index, |word|, maxLength);
    var end := WindowEnd(|text|, start, maxLength);
    var slice := Slice(text, start, end);
    assert OccursAt(slice, word, index - start) by {
      WindowBounds(|text|, index, |word|, maxLength);
      OccursInWindow(text, word, index, start, end);
    }
    var j := TrimKeepsSolidInfix(slice, word, index - start);
    var pre: string := if start > 0 then "..." else "";
    var post: string := if end < |text| then "..." else "";
    OccursInConcat(pre, Trim(slice), post, word, j);
    assert Windowed(text, start, maxLength) == pre + Trim(slice) + post;
  }

  /** When the text is already in normalised form, so that offsets in the
      normalised text are offsets in the text, the snippet contains the token. */
  lemma ClipShowsTokenWhenAligned(u: Unicode, text: string, query: string, maxLength: nat)
    requires Normalize(u, text) == text
    requires |text| > maxLength
    requires FirstToken(query) != "" && |FirstToken(query)| <= maxLength
    requires IndexOf(text, FirstToken(query)) >= 0
    ensures exists j: nat :: OccursAt(ClipContext(u, text, query, maxLength), FirstToken(query), j)
  {
    var token := FirstToken(query);
    var index := IndexOf(text, token);
    assert forall k | 0 <= k < |token| :: !IsSpace(token[k]) by {
      NormalizeIsClean(u, text);
      CleanWordIsSolid(u, text, token, index);
    }
    ClipCases(u, text, query, maxLength);
    WindowShowsSolidWord(text, token, index, maxLength);
  }

  /** The offset of the token is taken in the normalised text but used on
      the raw text. When normalisation shortens the text before the token
      (here five commas collapse to one space), the window misses the token:
      with the budget 4 and the query "bc", "a,,,,,bc" is shown as
      "...,,,,...". */
  lemma ClipMissesTokenWhenOffsetsShift()
    ensures Normalize(Ascii, "a,,,,,bc") == "a bc"
    ensures ClipContext(Ascii, "a,,,,,bc", "bc", 4) == "...,,,,..."
    ensures 'b' !in ClipContext(Ascii, "a,,,,,bc", "bc", 4)
  {
    SampleNormalized();
    SampleTokenAt2();
    SampleWindow();
    ClipCases(Ascii, "a,,,,,bc", "bc", 4);
  }

  lemma SampleNormalized()
    ensures Normalize(Ascii, "a,,,,,bc") == "a bc"
  {
    SampleFolded();
    SampleReplaced();
    SampleCollapsed();
    assert Trim("a bc") == "a bc";
  }

  lemma SampleFolded()
    ensures Lower(Ascii, Nfkc(Ascii, "a,,,,,bc")) == "a,,,,,bc"
  {
    var text := "a,,,,,bc";
    forall i | 0 <= i < |text|
      ensures FoldChar(Ascii, text[i]) == [text[i]]
    {
      AsciiFoldChar(text[i]);
    }
    FoldOfFixed(Ascii, text);
    LowerNfkcIsFold(Ascii, text);
  }

  lemma SampleReplaced()
    ensures ReplaceOthers(Ascii, "a,,,,,bc") == "a     bc"
  {
    var text := "a,,,,,bc";
    assert !IsKept(Ascii, ',') && IsKept(Ascii, 'a') && IsKept(Ascii, 'b') && IsKept(Ascii, 'c');
    var replaced := "a     bc";
    forall i | 0 <= i < 8
      ensures ReplaceOthers(Ascii, text)[i] == replaced[i]
    {
    }
  }

  lemma SampleCollapsed()
    ensures Collapse("a     bc") == "a bc"
  {
    assert ['a'] + "     " + "bc" == "a     bc";
    assert ['a', ' '] + "bc" == "a bc";
    SampleCollapsedWord();
    CollapseWordSpacesWord('a', "     ", "bc");
  }

  lemma SampleCollapsedWord()
    ensures Collapse("bc") == "bc"
  {
    assert Collapse("") == "";
    CollapseSolidHead('c', "");
    assert ['c'] + "" == "c";
    CollapseSolidHead('b', "c");
    assert ['b'] + "c" == "bc";
  }

  /** A character, a run of whitespace and a word that Collapse leaves
      alone collapse to the character, one space and the word. */
  lemma CollapseWordSpacesWord(a: char, spaces: string, w: string)
    requires !IsSpace(a) && |spaces| > 0
    requires forall i | 0 <= i < |spaces| :: IsSpace(spaces[i])
    requires |w| > 0 && !IsSpace(w[0]) && Collapse(w) == w
    ensures Collapse([a] + spaces + w) == [a, ' '] + w
  {
    assert [a] + spaces + w == [a] + (spaces + w);
    assert [a] + ([' '] + w) == [a, ' '] + w;
    HeadSplit(spaces, w);
    TrimStartSpaces(spaces[1..], w);
    CollapseSpaceHead(spaces[0], spaces[1..] + w);
    assert Collapse(spaces + w) == [' '] + w;
    CollapseSolidHead(a, spaces + w);
  }

  lemma HeadSplit(s: string, w: string)
    requires |s| > 0
    ensures s + w == [s[0]] + (s[1..] + w)
  {
    assert s == [s[0]] + s[1..];
  }

  lemma {:induction false} TrimStartSpaces(spaces: string, w: string)
    requires forall i | 0 <= i < |spaces| :: IsSpace(spaces[i])
    requires |w| > 0 && !IsSpace(w[0])
    ensures TrimStart(spaces + w) == w
    decreases |spaces|
  {
    if |spaces| == 0 {
      assert spaces + w == w;
    } else {
      assert (spaces + w)[1..] == spaces[1..] + w;
      TrimStartSpaces(spaces[1..], w);
    }
  }

  /** One step of Collapse on a character that is not whitespace. */
  lemma CollapseSolidHead(c: char, s: string)
    requires !IsSpace(c)
    ensures Collapse([c] + s) == [c] + Collapse(s)
  {
    assert ([c] + s)[1..] == s;
  }

  /** One step of Collapse on a whitespace character. */
  lemma CollapseSpaceHead(c: char, s: string)
    requires IsSpace(c)
    ensures Collapse([c] + s) == [' '] + Collapse(TrimStart(s))
  {
    assert ([c] + s)[1..] == s;
  }

  lemma SampleTokenAt2()
    ensures FirstToken("bc") == "bc" && IndexOf("a bc", "bc") == 2 && WindowStart(2, 2, 4) == 1
  {
    var last := Split("", ' ');
    assert last == [""];
    assert "c"[1..] == "" && "bc"[1..] == "c";
    assert ['c'] + last[0] == "c" && last[1..] == [];
    assert Split("c", ' ') == ["c"];
    var mid := Split("c", ' ');
    assert ['b'] + mid[0] == "bc" && mid[1..] == [];
    assert Split("bc", ' ') == ["bc"];
    assert OccursAt("a bc", "bc", 2);
    assert !OccursAt("a bc", "bc", 0) && !OccursAt("a bc", "bc", 1);
  }

  lemma SampleWindow()
    ensures Windowed("a,,,,,bc", 1, 4) == "...,,,,..."
    ensures 'b' !in Windowed("a,,,,,bc", 1, 4)
  {
    var text := "a,,,,,bc";
    var core := text[1..5];
    assert core == [',', ',', ',', ','];
    assert TrimEnd(core) == core;
    assert TrimStart(core) == core;
    assert Slice(text, 1, 5) == core;
    assert WindowEnd(8, 1, 4) == 5;
    var shown := "...,,,,...";
    assert forall i | 0 <= i < |shown| :: shown[i] == '.' || shown[i] == ',';
  }

  /** Characters `suggestionDomId` keeps: `[a-zA-Z0-9_-]`. */
  predicate IsDomIdChar(c: char)
  {
    ('a' <= c <= 'z') || ('A' <= c <= 'Z') || ('0' <= c <= '9') || c == '_' || c == '-'
  }

  /** `suggestion-${id.replace(/[^a-zA-Z0-9_-]/g, "-")}`. */
  function SuggestionDomId(id: string): (r: string)
    ensures |r| == 11 + |id| && r[..11] == "suggestion-"
    ensures forall c <- r :: IsDomIdChar(c)
    ensures forall i | 0 <= i < |id| :: r[11 + i] == (if IsDomIdChar(id[i]) then id[i] else '-')
  {
    "suggestion-" + seq(|id|, i requires 0 <= i < |id| => if IsDomIdChar(id[i]) then id[i] else '-')
  }

  /** Ids made only of kept characters get distinct DOM ids. */
  lemma DomIdInjectiveOnSafeIds(a: string, b: string)
    requires forall c <- a :: IsDomIdChar(c)
    requires forall c <- b :: IsDomIdChar(c)
    requires SuggestionDomId(a) == SuggestionDomId(b)
    ensures a == b
  {
    assert |a| == |b|;
    forall i | 0 <= i < |a| ensures a[i] == b[i] {
      assert SuggestionDomId(a)[11 + i] == SuggestionDomId(b)[11 + i];
    }
  }

  /** Other ids can collide: a ':' (the separator in OCR keys) and a '-'
      both become '-'. */
  lemma DomIdCollision()
    ensures "1:2" != "1-2" && SuggestionDomId("1:2") == SuggestionDomId("1-2")
  {
    var a, b := "1:2", "1-2";
    assert a[1] != b[1];
    assert a[0] == b[0] == '1' && a[2] == b[2] == '2';
    assert !IsDomIdChar(a[1]) && b[1] == '-';
    DomIdsAgree(a, b);
  }

  /** Two ids of one length whose characters map alike get one DOM id. */
  lemma DomIdsAgree(a: string, b: string)
    requires |a| == |b|
    requires forall i | 0 <= i < |a| ::
      (if IsDomIdChar(a[i]) then a[i] else '-') == (if IsDomIdChar(b[i]) then b[i] else '-')
    ensures SuggestionDomId(a) == SuggestionDomId(b)
  {
    var ra, rb := SuggestionDomId(a), SuggestionDomId(b);
    forall i | 0 <= i < |ra|
      ensures ra[i] == rb[i]
    {
      if i < 11 {
        assert ra[i] == ra[..11][i] && rb[i] == rb[..11][i];
      }
    }
  }
}
