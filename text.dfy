/**
 * Text normalisation of the phrase matcher: lower-casing, stripping, collapsing
 * whitespace runs (`preprocess`), word tokens (`re.findall(r"\w+", ...)`) and
 * the lemma set of a text.  Lemmatisation itself (pymorphy2) is a foreign call
 * and is passed in as a function value `lemmatize`.
 */
module Text {

  /** Python's `str.isspace()`; for `str` patterns the regular-expression class `\s` is the same set. */
  predicate IsSpace(c: char) {
    ('\U{0009}' <= c <= '\U{000D}') || ('\U{001C}' <= c <= '\U{0020}')
    || c == '\U{0085}' || c == '\U{00A0}' || c == '\U{1680}'
    || ('\U{2000}' <= c <= '\U{200A}') || c == '\U{2028}' || c == '\U{2029}'
    || c == '\U{202F}' || c == '\U{205F}' || c == '\U{3000}'
  }

  /** The class `\w`, restricted to ASCII and the Cyrillic block (letters, digits and `_`). */
  predicate IsWordChar(c: char) {
    ('0' <= c <= '9') || ('a' <= c <= 'z') || ('A' <= c <= 'Z') || c == '_'
    || ('\U{0400}' <= c <= '\U{0481}') || ('\U{048A}' <= c <= '\U{04FF}')
  }

  /**
   * Lower-casing of one character, for ASCII and the basic Cyrillic capitals
   * (А..Я and Ѐ..Џ, the latter including Ё).  The result is a lower-case
   * fixed point, and the character classes are unchanged by it.
   */
  function Lower(c: char): (r: char)
    ensures IsSpace(r) == IsSpace(c)
    ensures IsWordChar(r) == IsWordChar(c)
  {
    if 'A' <= c <= 'Z' then (c as int + 32) as char
    else if '\U{0410}' <= c <= '\U{042F}' then (c as int + 32) as char
    else if '\U{0400}' <= c <= '\U{040F}' then (c as int + 80) as char
    else c
  }

  lemma LowerIdempotent(c: char)
    ensures Lower(Lower(c)) == Lower(c)
  {
  }

  /** `str.lower()` */
  function LowerAll(s: string): (r: string) {
    seq(|s|, i requires 0 <= i < |s| => Lower(s[i]))
  }

  ghost predicate IsLowered(s: string) {
    forall i :: 0 <= i < |s| ==> Lower(s[i]) == s[i]
  }

  ghost predicate NoEdgeSpace(s: string) {
    |s| > 0 ==> !IsSpace(s[0]) && !IsSpace(s[|s| - 1])
  }

  /** Every whitespace character is a plain space, and no two of them are adjacent. */
  ghost predicate SingleSpaced(s: string) {
    && (forall i :: 0 <= i < |s| && IsSpace(s[i]) ==> s[i] == ' ')
    && (forall i :: 0 <= i < |s| - 1 && IsSpace(s[i]) ==> !IsSpace(s[i + 1]))
  }

  /** What `preprocess` promises of its result. */
  ghost predicate Normalized(s: string) {
    IsLowered(s) && NoEdgeSpace(s) && SingleSpaced(s)
  }

  /** Only whitespace (or nothing at all). */
  ghost predicate IsBlank(s: string) {
    forall i :: 0 <= i < |s| ==> IsSpace(s[i])
  }

  /** Every character of `r` occurs in `s`. */
  ghost predicate CharsFrom(r: string, s: string) {
    forall i :: 0 <= i < |r| ==> r[i] in s
  }

  /** Length of the leading whitespace run. */
  function LeadingSpaces(s: string): (n: nat)
    ensures n <= |s|
    ensures forall i :: 0 <= i < n ==> IsSpace(s[i])
    ensures n < |s| ==> !IsSpace(s[n])
  {
    if |s| > 0 && IsSpace(s[0]) then 1 + LeadingSpaces(s[1..]) else 0
  }

  /** Length of the trailing whitespace run. */
  function TrailingSpaces(s: string): (n: nat)
    ensures n <= |s|
    ensures forall i :: |s| - n <= i < |s| ==> IsSpace(s[i])
    ensures n < |s| ==> !IsSpace(s[|s| - 1 - n])
  {
    if |s| > 0 && IsSpace(s[|s| - 1]) then 1 + TrailingSpaces(s[..|s| - 1]) else 0
  }

  /** `s.lstrip()` */
  function TrimStart(s: string): (r: string) {
    s[LeadingSpaces(s)..]
  }

  /** `str.strip()`: removes whitespace at both ends. */
  function Strip(s: string): (r: string) {
    var t := TrimStart(s);
    t[..|t| - TrailingSpaces(t)]
  }

  /**
   * What `str.strip()` promises: no whitespace at either end, a blank result
   * exactly when the input is all whitespace, only characters of the input,
   * and a string without edge whitespace is left as it is.
   */
  lemma StripSpec(s: string)
    ensures NoEdgeSpace(Strip(s))
    ensures Strip(s) == [] <==> IsBlank(s)
    ensures CharsFrom(Strip(s), s)
    ensures NoEdgeSpace(s) ==> Strip(s) == s
    ensures exists i, j :: 0 <= i <= j <= |s| && Strip(s) == s[i..j] && IsBlank(s[..i]) && IsBlank(s[j..])
  {
    StripEdges(s);
    StripChars(s);
    var i, m := LeadingSpaces(s), TrailingSpaces(TrimStart(s));
    StripSlice(s, i, m);
    assert Strip(s) == s[i..|s| - m];
  }

  /** `strip()` cuts a whitespace-only prefix and a whitespace-only suffix and keeps the middle as it is. */
  lemma StripSlice(s: string, i: nat, m: nat)
    requires i == LeadingSpaces(s) && m == TrailingSpaces(TrimStart(s))
    ensures i <= |s| - m
    ensures Strip(s) == s[i..|s| - m]
    ensures IsBlank(s[..i])
    ensures IsBlank(s[|s| - m..])
  {
    StripIsSlice(s, i, m);
    BlankPrefix(s, i);
    BlankSuffixOfSuffix(s, i, m);
  }

  lemma StripIsSlice(s: string, i: nat, m: nat)
    requires i == LeadingSpaces(s) && m == TrailingSpaces(TrimStart(s))
    ensures i <= |s| - m && Strip(s) == s[i..|s| - m]
  {
    var t := TrimStart(s);
    assert t == s[i..];
    SliceOfSuffix(s, i, m);
  }

  lemma SliceOfSuffix(s: string, i: nat, m: nat)
    requires i <= |s| && m <= |s| - i
    ensures s[i..][..|s[i..]| - m] == s[i..|s| - m]
  {
  }

  lemma BlankPrefix(s: string, i: nat)
    requires i <= |s| && forall k :: 0 <= k < i ==> IsSpace(s[k])
    ensures IsBlank(s[..i])
  {
  }

  lemma BlankSuffixOfSuffix(s: string, i: nat, m: nat)
    requires i <= |s| && m <= |s| - i
    requires forall k :: |s[i..]| - m <= k < |s[i..]| ==> IsSpace(s[i..][k])
    ensures IsBlank(s[|s| - m..])
  {
    var t, u := s[i..], s[|s| - m..];
    forall k | 0 <= k < m ensures IsSpace(u[k]) {
      assert t[|t| - m + k] == u[k];
    }
  }

  lemma StripEdges(s: string)
    ensures NoEdgeSpace(Strip(s))
    ensures Strip(s) == [] <==> IsBlank(s)
    ensures NoEdgeSpace(s) ==> Strip(s) == s
  {
    var n := LeadingSpaces(s);
    var t := TrimStart(s);
    var m := TrailingSpaces(t);
    var r := Strip(s);
    assert r == t[..|t| - m];
    if r != [] {
      assert r[0] == s[n];
      assert r[|r| - 1] == t[|t| - 1 - m];
    }
    if IsBlank(s) {
      assert n == |s|;
    }
    if NoEdgeSpace(s) && |s| > 0 {
      assert n == 0;
      assert m == 0;
    }
  }

  lemma StripChars(s: string)
    ensures CharsFrom(Strip(s), s)
  {
    var n := LeadingSpaces(s);
    var t := TrimStart(s);
    var r := Strip(s);
    forall i | 0 <= i < |r| ensures r[i] in s {
      assert r[i] == t[i] == s[n + i];
    }
  }

  /** Stripping twice is stripping once. */
  lemma StripIdempotent(s: string)
    ensures Strip(Strip(s)) == Strip(s)
  {
    StripEdges(s);
    StripEdges(Strip(s));
  }

  /**
   * `re.sub(r"\s+", " ", s)`: every maximal whitespace run becomes one space.
   * The result is empty exactly when the input is, and starts (ends) with
   * whitespace exactly when the input does.
   */
  function Collapse(s: string): (r: string)
    ensures |r| == 0 <==> |s| == 0
    ensures |s| > 0 ==> (IsSpace(r[0]) <==> IsSpace(s[0]))
    ensures |s| > 0 ==> (IsSpace(r[|r| - 1]) <==> IsSpace(s[|s| - 1]))
    decreases |s|
  {
    if |s| == 0 then []
    else if IsSpace(s[0]) then
      var t := TrimStart(s);
      assert t == [] ==> IsSpace(s[|s| - 1]);
      assert t != [] ==> t[|t| - 1] == s[|s| - 1];
      [' '] + Collapse(t)
    else
      [s[0]] + Collapse(s[1..])
  }

  /** The collapsed text is single-spaced. */
  lemma {:induction false} CollapseSingleSpaced(s: string)
    ensures SingleSpaced(Collapse(s))
    decreases |s|
  {
    if |s| > 0 {
      var t := if IsSpace(s[0]) then TrimStart(s) else s[1..];
      var rt := Collapse(t);
      CollapseSingleSpaced(t);
      assert Collapse(s) == [if IsSpace(s[0]) then ' ' else s[0]] + rt;
      assert IsSpace(s[0]) && rt != [] ==> !IsSpace(rt[0]);
      ConsSingleSpaced(if IsSpace(s[0]) then ' ' else s[0], rt);
    }
  }

  /** One character in front of a single-spaced text keeps it single-spaced unless it starts a second space. */
  lemma ConsSingleSpaced(x: char, rt: string)
    requires SingleSpaced(rt)
    requires IsSpace(x) ==> x == ' ' && (rt != [] ==> !IsSpace(rt[0]))
    ensures SingleSpaced([x] + rt)
  {
    var r := [x] + rt;
    forall i | 0 < i < |r| && IsSpace(r[i]) ensures r[i] == ' ' {
      assert r[i] == rt[i - 1];
    }
    forall i | 0 < i < |r| - 1 && IsSpace(r[i]) ensures !IsSpace(r[i + 1]) {
      assert r[i] == rt[i - 1] && r[i + 1] == rt[i];
    }
  }

  /**
   * Every non-space character of the collapsed text is a character of the
   * input; a consequence of `NonSpaceCollapse`, since the only whitespace
   * `Collapse` leaves is `' '`.
   */
  lemma CollapseKeepsChars(s: string)
    ensures forall i :: 0 <= i < |Collapse(s)| && Collapse(s)[i] != ' ' ==> Collapse(s)[i] in s
  {
    var r := Collapse(s);
    CollapseSingleSpaced(s);
    NonSpaceCollapse(s);
    NonSpaceMembers(r);
    NonSpaceMembers(s);
    forall i | 0 <= i < |r| && r[i] != ' ' ensures r[i] in s {
      assert r[i] in NonSpace(r);
    }
  }

  /** `preprocess(text)`: `str(text).lower().strip()` followed by collapsing whitespace runs. */
  function Preprocess(text: string): (r: string) {
    Collapse(Strip(LowerAll(text)))
  }

  lemma SingleSpacedTail(s: string)
    requires SingleSpaced(s) && |s| > 0
    ensures SingleSpaced(s[1..])
  {
    var u := s[1..];
    forall i | 0 <= i < |u| && IsSpace(u[i]) ensures u[i] == ' ' {
      assert u[i] == s[i + 1];
    }
    forall i | 0 <= i < |u| - 1 && IsSpace(u[i]) ensures !IsSpace(u[i + 1]) {
      assert u[i] == s[i + 1] && u[i + 1] == s[i + 2];
    }
  }

  lemma {:induction false} CollapseFixesSingleSpaced(s: string)
    requires SingleSpaced(s)
    ensures Collapse(s) == s
    decreases |s|
  {
    if |s| > 0 {
      var u := s[1..];
      SingleSpacedTail(s);
      CollapseFixesSingleSpaced(u);
      if IsSpace(s[0]) {
        LeadingSpacesUnique(s, 1);
      }
      assert s == [s[0]] + u;
    }
  }

  /** The result of `preprocess` is lower-case, has no edge whitespace and no whitespace run longer than one space. */
  lemma PreprocessNormalized(text: string)
    ensures Normalized(Preprocess(text))
  {
    var l := LowerAll(text);
    var t := Strip(l);
    var r := Collapse(t);
    StripEdges(l);
    StripChars(l);
    CollapseSingleSpaced(t);
    CollapseKeepsChars(t);
    assert IsLowered(t) by {
      forall i | 0 <= i < |t| ensures Lower(t[i]) == t[i] {
        var j :| 0 <= j < |l| && l[j] == t[i];
        LowerIdempotent(text[j]);
      }
    }
    forall i | 0 <= i < |r| ensures Lower(r[i]) == r[i] {
      if r[i] != ' ' {
        var j :| 0 <= j < |t| && t[j] == r[i];
      }
    }
  }

  /** Applying `preprocess` twice is the same as applying it once. */
  lemma PreprocessIdempotent(text: string)
    ensures Preprocess(Preprocess(text)) == Preprocess(text)
  {
    var p := Preprocess(text);
    PreprocessNormalized(text);
    assert LowerAll(p) == p;
    StripEdges(p);
    CollapseFixesSingleSpaced(p);
  }

  /**
   * `preprocess` creates no word characters: each one in the result is the
   * lower case of one in the input; a consequence of `PreprocessKeepsText`.
   */
  lemma PreprocessWordChars(text: string)
    ensures forall i :: 0 <= i < |Preprocess(text)| && IsWordChar(Preprocess(text)[i]) ==>
      exists j :: 0 <= j < |text| && Preprocess(text)[i] == Lower(text[j])
  {
    var r := Preprocess(text);
    PreprocessKeepsText(text);
    forall i | 0 <= i < |r| && IsWordChar(r[i])
      ensures exists j :: 0 <= j < |text| && r[i] == Lower(text[j])
    {
      KeptCharIsLowered(text, r, i);
    }
  }

  lemma KeptCharIsLowered(text: string, r: string, i: nat)
    requires NonSpace(r) == LowerAll(NonSpace(text))
    requires i < |r| && !IsSpace(r[i])
    ensures exists j :: 0 <= j < |text| && r[i] == Lower(text[j])
  {
    var kept := NonSpace(text);
    NonSpaceMembers(r);
    NonSpaceMembers(text);
    assert r[i] in LowerAll(kept);
    var k :| 0 <= k < |kept| && LowerAll(kept)[k] == r[i];
    assert kept[k] in kept;
    var j :| 0 <= j < |text| && text[j] == kept[k];
  }

  /** Reference definition for what normalisation keeps: the non-whitespace characters of `s`, in order. */
  function NonSpace(s: string): (r: string) {
    if s == [] then [] else (if IsSpace(s[0]) then [] else [s[0]]) + NonSpace(s[1..])
  }

  lemma NonSpaceCons(c: char, s: string)
    ensures NonSpace([c] + s) == (if IsSpace(c) then [] else [c]) + NonSpace(s)
  {
    assert ([c] + s)[1..] == s;
  }

  lemma {:induction false} NonSpaceAppend(a: string, b: string)
    ensures NonSpace(a + b) == NonSpace(a) + NonSpace(b)
  {
    if a == [] {
      assert a + b == b;
    } else {
      assert (a + b)[0] == a[0];
      assert (a + b)[1..] == a[1..] + b;
      NonSpaceAppend(a[1..], b);
    }
  }

  lemma {:induction false} NonSpaceOfBlank(s: string)
    requires IsBlank(s)
    ensures NonSpace(s) == []
  {
    if s != [] {
      NonSpaceOfBlank(s[1..]);
    }
  }

  /** The characters `NonSpace` keeps are exactly the non-whitespace characters of `s`. */
  lemma {:induction false} NonSpaceMembers(s: string)
    ensures forall c :: c in NonSpace(s) <==> c in s && !IsSpace(c)
  {
    if s != [] {
      NonSpaceMembers(s[1..]);
      assert s == [s[0]] + s[1..];
    }
  }

  /** Stripping removes whitespace only: the non-whitespace characters survive, in order. */
  lemma NonSpaceStrip(s: string)
    ensures NonSpace(Strip(s)) == NonSpace(s)
  {
    var i, j := StripBounds(s);
    NonSpaceOfMiddle(s, Strip(s), i, j);
  }

  /** Where `Strip(s)` starts and ends inside `s`. */
  lemma StripBounds(s: string) returns (i: nat, j: nat)
    ensures i <= j <= |s| && Strip(s) == s[i..j]
    ensures IsBlank(s[..i]) && IsBlank(s[j..])
  {
    var m := TrailingSpaces(TrimStart(s));
    i, j := LeadingSpaces(s), |s| - m;
    StripSlice(s, i, m);
  }

  /** Cutting whitespace off both ends loses no non-whitespace character. */
  lemma NonSpaceOfMiddle(s: string, middle: string, i: nat, j: nat)
    requires i <= j <= |s| && middle == s[i..j]
    requires IsBlank(s[..i]) && IsBlank(s[j..])
    ensures NonSpace(middle) == NonSpace(s)
  {
    assert s == s[..i] + s[i..j] + s[j..];
    NonSpaceAppend(s[..i] + s[i..j], s[j..]);
    NonSpaceAppend(s[..i], s[i..j]);
    NonSpaceOfBlank(s[..i]);
    NonSpaceOfBlank(s[j..]);
  }

  /** The length of the leading whitespace run is determined by where the first non-space character is. */
  lemma LeadingSpacesUnique(s: string, n: nat)
    requires n <= |s|
    requires forall i :: 0 <= i < n ==> IsSpace(s[i])
    requires n < |s| ==> !IsSpace(s[n])
    ensures LeadingSpaces(s) == n
  {
  }

  lemma {:induction false} NonSpaceCollapse(s: string)
    ensures NonSpace(Collapse(s)) == NonSpace(s)
    decreases |s|
  {
    if |s| > 0 {
      if IsSpace(s[0]) {
        var n := LeadingSpaces(s);
        var t := s[n..];
        NonSpaceCollapse(t);
        NonSpaceCons(' ', Collapse(t));
        assert s == s[..n] + t;
        NonSpaceAppend(s[..n], t);
        NonSpaceOfBlank(s[..n]);
      } else {
        NonSpaceCollapse(s[1..]);
        NonSpaceCons(s[0], Collapse(s[1..]));
      }
    }
  }

  /** A non-empty whitespace run collapses to exactly one space. */
  lemma CollapseBlank(s: string)
    requires s != [] && IsBlank(s)
    ensures Collapse(s) == " "
  {
    LeadingSpacesUnique(s, |s|);
    assert TrimStart(s) == [];
  }

  /**
   * A non-whitespace character separates what collapsing does on its two
   * sides: together with `CollapseBlank`, every maximal whitespace run
   * becomes one space and everything else stays in place.
   */
  lemma CollapseAround(a: string, c: char, b: string)
    requires !IsSpace(c)
    ensures Collapse(a + [c] + b) == Collapse(a) + [c] + Collapse(b)
  {
    var r := [c] + b;
    assert a + [c] + b == a + r;
    assert r[1..] == b;
    CollapseBefore(a, r);
    assert Collapse(r) == [c] + Collapse(b);
  }

  /** What collapsing does to `a + r`, where `r` starts with a non-whitespace character, it does to `a` and `r` apart. */
  lemma {:induction false} CollapseBefore(a: string, r: string)
    requires r != [] && !IsSpace(r[0])
    ensures Collapse(a + r) == Collapse(a) + Collapse(r)
    decreases |a|
  {
    if a == [] {
      assert a + r == r;
    } else {
      var j := if IsSpace(a[0]) then LeadingSpaces(a) else 1;
      var x := if IsSpace(a[0]) then ' ' else a[0];
      CollapseStep(a, r, j, x);
      CollapseBefore(a[j..], r);
      ConsThenAppend(Collapse(a + r), x, Collapse(a[j..] + r), Collapse(a[j..]), Collapse(r), Collapse(a));
    }
  }

  /** One step of collapsing `a + r`: the same first character and the same rest as for `a`. */
  lemma CollapseStep(a: string, r: string, j: nat, x: char)
    requires a != [] && r != [] && !IsSpace(r[0])
    requires j == (if IsSpace(a[0]) then LeadingSpaces(a) else 1)
    requires x == (if IsSpace(a[0]) then ' ' else a[0])
    ensures 0 < j <= |a|
    ensures Collapse(a + r) == [x] + Collapse(a[j..] + r)
    ensures Collapse(a) == [x] + Collapse(a[j..])
  {
    var s := a + r;
    assert s[0] == a[0];
    if IsSpace(a[0]) {
      LeadingSpacesUnique(s, j);
    }
    assert s[j..] == a[j..] + r;
  }

  lemma {:induction false} NonSpaceLowerAll(s: string)
    ensures NonSpace(LowerAll(s)) == LowerAll(NonSpace(s))
  {
    if s != [] {
      var l := LowerAll(s);
      assert l == [Lower(s[0])] + LowerAll(s[1..]);
      NonSpaceLowerAll(s[1..]);
      NonSpaceCons(Lower(s[0]), LowerAll(s[1..]));
      LowerAllAppend(if IsSpace(s[0]) then [] else [s[0]], NonSpace(s[1..]));
    }
  }

  lemma LowerAllAppend(a: string, b: string)
    ensures LowerAll(a + b) == LowerAll(a) + LowerAll(b)
  {
  }

  /**
   * `preprocess` keeps the text: its non-whitespace characters are those of
   * the input, lower-cased, in the same order.
   */
  lemma PreprocessKeepsText(text: string)
    ensures NonSpace(Preprocess(text)) == LowerAll(NonSpace(text))
  {
    var l := LowerAll(text);
    NonSpaceCollapse(Strip(l));
    NonSpaceStrip(l);
    NonSpaceLowerAll(text);
  }

  /** Length of the leading run of non-word characters. */
  function NonWordPrefixLength(s: string): (n: nat)
    ensures n <= |s|
    ensures n < |s| ==> IsWordChar(s[n])
  {
    if |s| > 0 && !IsWordChar(s[0]) then 1 + NonWordPrefixLength(s[1..]) else 0
  }

  /** The characters before `NonWordPrefixLength(s)` are all non-word characters. */
  lemma {:induction false} NonWordPrefix(s: string)
    ensures forall i :: 0 <= i < NonWordPrefixLength(s) ==> !IsWordChar(s[i])
  {
    if |s| > 0 && !IsWordChar(s[0]) {
      NonWordPrefix(s[1..]);
      assert forall i :: 1 <= i < NonWordPrefixLength(s) ==> s[i] == s[1..][i - 1];
    }
  }

  /** Length of the leading run of word characters. */
  function WordPrefixLength(s: string): (n: nat)
    ensures n <= |s|
    ensures n < |s| ==> !IsWordChar(s[n])
    ensures |s| > 0 && IsWordChar(s[0]) ==> n > 0
  {
    if |s| > 0 && IsWordChar(s[0]) then 1 + WordPrefixLength(s[1..]) else 0
  }

  /** The characters before `WordPrefixLength(s)` are all word characters. */
  lemma {:induction false} WordPrefix(s: string)
    ensures forall i :: 0 <= i < WordPrefixLength(s) ==> IsWordChar(s[i])
  {
    if |s| > 0 && IsWordChar(s[0]) {
      WordPrefix(s[1..]);
      assert forall i :: 1 <= i < WordPrefixLength(s) ==> s[i] == s[1..][i - 1];
    }
  }

  /** A non-empty run of word characters. */
  ghost predicate IsWord(w: string) {
    |w| > 0 && forall i :: 0 <= i < |w| ==> IsWordChar(w[i])
  }

  /** `re.findall(r"\w+", s)`: the maximal runs of word characters, left to right. */
  function Words(s: string): (ws: seq<string>)
    decreases |s|
  {
    var t := s[NonWordPrefixLength(s)..];
    if t == [] then []
    else
      var n := WordPrefixLength(t);
      assert n > 0;
      [t[..n]] + Words(t[n..])
  }

  /** Every token is a non-empty run of word characters. */
  lemma {:induction false} WordsAreWords(s: string)
    ensures forall k :: 0 <= k < |Words(s)| ==> IsWord(Words(s)[k])
    decreases |s|
  {
    var t := s[NonWordPrefixLength(s)..];
    if t != [] {
      var n := WordPrefixLength(t);
      var rest := Words(t[n..]);
      WordsAreWords(t[n..]);
      WordPrefix(t);
      PrefixIsWord(t, n);
      ConsWords(t[..n], rest);
    }
  }

  lemma PrefixIsWord(t: string, n: nat)
    requires 0 < n <= |t|
    requires forall i :: 0 <= i < n ==> IsWordChar(t[i])
    ensures IsWord(t[..n])
  {
  }

  lemma ConsWords(w: string, rest: seq<string>)
    requires IsWord(w)
    requires forall k :: 0 <= k < |rest| ==> IsWord(rest[k])
    ensures forall k :: 0 <= k < |[w] + rest| ==> IsWord(([w] + rest)[k])
  {
    forall k | 0 < k < |[w] + rest| ensures IsWord(([w] + rest)[k]) {
      assert ([w] + rest)[k] == rest[k - 1];
    }
  }

  /** Reference definition for the tokens: the word characters of `s`, in order. */
  function WordChars(s: string): (r: string) {
    if s == [] then [] else (if IsWordChar(s[0]) then [s[0]] else []) + WordChars(s[1..])
  }

  /** The pieces joined end to end, in order (`"".join(ws)`, `pd.concat(tables)`). */
  function Flatten<T>(xss: seq<seq<T>>): (r: seq<T>) {
    if xss == [] then [] else xss[0] + Flatten(xss[1..])
  }

  /** Flattening distributes over concatenation of the piece lists. */
  lemma {:induction false} FlattenAppend<T>(a: seq<seq<T>>, b: seq<seq<T>>)
    ensures Flatten(a + b) == Flatten(a) + Flatten(b)
  {
    if a == [] {
      assert a + b == b;
    } else {
      assert (a + b)[0] == a[0] && (a + b)[1..] == a[1..] + b;
      FlattenAppend(a[1..], b);
    }
  }

  lemma {:induction false} WordCharsAppend(a: string, b: string)
    ensures WordChars(a + b) == WordChars(a) + WordChars(b)
  {
    if a != [] {
      assert (a + b)[0] == a[0];
      assert (a + b)[1..] == a[1..] + b;
      WordCharsAppend(a[1..], b);
    } else {
      assert a + b == b;
    }
  }

  lemma {:induction false} WordCharsOfWord(w: string)
    requires forall i :: 0 <= i < |w| ==> IsWordChar(w[i])
    ensures WordChars(w) == w
  {
    if w != [] {
      WordCharsOfWord(w[1..]);
    }
  }

  lemma {:induction false} WordCharsOfNonWord(w: string)
    requires forall i :: 0 <= i < |w| ==> !IsWordChar(w[i])
    ensures WordChars(w) == []
  {
    if w != [] {
      WordCharsOfNonWord(w[1..]);
    }
  }

  /** The tokens, put back together, are exactly the word characters of the input: nothing is lost or invented. */
  lemma {:induction false} WordsCoverWordChars(s: string)
    ensures Flatten(Words(s)) == WordChars(s)
    decreases |s|
  {
    var m := NonWordPrefixLength(s);
    var t := s[m..];
    NonWordPrefix(s);
    WordCharsAfterNonWords(s, m);
    if t != [] {
      var n := WordPrefixLength(t);
      var rest := Words(t[n..]);
      WordsCoverWordChars(t[n..]);
      WordPrefix(t);
      WordCharsAfterWord(t, n);
      assert ([t[..n]] + rest)[1..] == rest;
      assert Flatten(Words(s)) == t[..n] + Flatten(rest);
    }
  }

  lemma WordCharsAfterNonWords(s: string, m: nat)
    requires m <= |s|
    requires forall i :: 0 <= i < m ==> !IsWordChar(s[i])
    ensures WordChars(s) == WordChars(s[m..])
  {
    assert s == s[..m] + s[m..];
    WordCharsAppend(s[..m], s[m..]);
    WordCharsOfNonWord(s[..m]);
  }

  lemma WordCharsAfterWord(t: string, n: nat)
    requires n <= |t|
    requires forall i :: 0 <= i < n ==> IsWordChar(t[i])
    ensures WordChars(t) == t[..n] + WordChars(t[n..])
  {
    assert t == t[..n] + t[n..];
    WordCharsAppend(t[..n], t[n..]);
    WordCharsOfWord(t[..n]);
  }

  /** A text has no tokens exactly when it has no word character. */
  lemma NoWordsIffNoWordChars(s: string)
    ensures Words(s) == [] <==> forall i :: 0 <= i < |s| ==> !IsWordChar(s[i])
  {
    var m := NonWordPrefixLength(s);
    NonWordPrefix(s);
    if m < |s| {
      assert IsWordChar(s[m]);
    }
  }

  lemma NonWordPrefixLengthUnique(s: string, n: nat)
    requires n <= |s|
    requires forall i :: 0 <= i < n ==> !IsWordChar(s[i])
    requires n < |s| ==> IsWordChar(s[n])
    ensures NonWordPrefixLength(s) == n
  {
    NonWordPrefix(s);
  }

  lemma WordPrefixLengthUnique(s: string, n: nat)
    requires n <= |s|
    requires forall i :: 0 <= i < n ==> IsWordChar(s[i])
    requires n < |s| ==> !IsWordChar(s[n])
    ensures WordPrefixLength(s) == n
  {
    WordPrefix(s);
  }

  /** Leading non-word characters produce no token. */
  lemma WordsSkipNonWord(x: string, y: string)
    requires forall i :: 0 <= i < |x| ==> !IsWordChar(x[i])
    ensures Words(x + y) == Words(y)
  {
    var s := x + y;
    var k := NonWordPrefixLength(y);
    NonWordPrefix(y);
    NonWordPrefixLengthUnique(s, |x| + k);
    assert s[|x| + k..] == y[k..];
  }

  /** A word followed by a non-word character (or by nothing) is one whole token. */
  lemma WordsConsWord(w: string, rest: string)
    requires IsWord(w)
    requires rest != [] ==> !IsWordChar(rest[0])
    ensures Words(w + rest) == [w] + Words(rest)
  {
    var s := w + rest;
    NonWordPrefixLengthUnique(s, 0);
    WordPrefixLengthUnique(s, |w|);
    assert s[..|w|] == w && s[|w|..] == rest;
  }

  /** A run of word characters is a single token: `re.findall(r"\w+", w) == [w]`. */
  lemma WordsOfWord(w: string)
    requires IsWord(w)
    ensures Words(w) == [w]
  {
    WordsConsWord(w, []);
    assert w + [] == w;
  }

  /**
   * A non-word character separates tokens: the tokens on its two sides are
   * found independently, so a token never spans it and never stops short of it.
   */
  lemma WordsAround(a: string, c: char, b: string)
    requires !IsWordChar(c)
    ensures Words(a + [c] + b) == Words(a) + Words(b)
  {
    assert a + [c] + b == a + ([c] + b);
    WordsBefore(a, [c] + b);
    WordsSkipNonWord([c], b);
  }

  /** The tokens of `a + r`, where `r` starts with a non-word character, are those of `a` followed by those of `r`. */
  lemma {:induction false} WordsBefore(a: string, r: string)
    requires r != [] && !IsWordChar(r[0])
    ensures Words(a + r) == Words(a) + Words(r)
    decreases |a|, 1
  {
    var m := NonWordPrefixLength(a);
    WordsAfterNonWordPrefix(a, m, r);
    if m == |a| {
      assert a[m..] == [] && a[m..] + r == r;
    } else {
      WordsBeforeWord(a[m..], r);
    }
  }

  lemma {:induction false} WordsBeforeWord(t: string, r: string)
    requires t != [] && IsWordChar(t[0])
    requires r != [] && !IsWordChar(r[0])
    ensures Words(t + r) == Words(t) + Words(r)
    decreases |t|, 0
  {
    var n := WordPrefixLength(t);
    WordsSplitFirstWord(t, n, r);
    WordsBefore(t[n..], r);
    ConsThenAppend(Words(t + r), t[..n], Words(t[n..] + r), Words(t[n..]), Words(r), Words(t));
  }

  lemma ConsThenAppend<T>(whole: seq<T>, w: T, tail: seq<T>, left: seq<T>, right: seq<T>, first: seq<T>)
    requires whole == [w] + tail && tail == left + right && first == [w] + left
    ensures whole == first + right
  {
  }

  lemma WordsAfterNonWordPrefix(a: string, m: nat, r: string)
    requires m == NonWordPrefixLength(a)
    ensures Words(a + r) == Words(a[m..] + r)
    ensures Words(a) == Words(a[m..])
  {
    NonWordPrefix(a);
    assert a == a[..m] + a[m..];
    assert a + r == a[..m] + (a[m..] + r);
    WordsSkipNonWord(a[..m], a[m..] + r);
    WordsSkipNonWord(a[..m], a[m..]);
  }

  lemma WordsSplitFirstWord(t: string, n: nat, r: string)
    requires t != [] && IsWordChar(t[0]) && n == WordPrefixLength(t)
    requires r != [] && !IsWordChar(r[0])
    ensures 0 < n <= |t|
    ensures Words(t + r) == [t[..n]] + Words(t[n..] + r)
    ensures Words(t) == [t[..n]] + Words(t[n..])
  {
    FirstWord(t, n);
    FirstWordBefore(t, n, r);
    WordsConsWord(t[..n], t[n..]);
  }

  /** The first run of a text that starts with a word character is a word, followed by a non-word character or nothing. */
  lemma FirstWord(t: string, n: nat)
    requires t != [] && IsWordChar(t[0]) && n == WordPrefixLength(t)
    ensures 0 < n <= |t| && IsWord(t[..n]) && t == t[..n] + t[n..]
    ensures t[n..] != [] ==> !IsWordChar(t[n..][0])
  {
    WordPrefix(t);
    PrefixIsWord(t, n);
  }

  lemma FirstWordBefore(t: string, n: nat, r: string)
    requires 0 < n <= |t| && IsWord(t[..n]) && t == t[..n] + t[n..]
    requires t[n..] != [] ==> !IsWordChar(t[n..][0])
    requires r != [] && !IsWordChar(r[0])
    ensures Words(t + r) == [t[..n]] + Words(t[n..] + r)
  {
    var w, u := t[..n], t[n..];
    assert t + r == w + (u + r);
    assert (u + r)[0] == (if u == [] then r[0] else u[0]);
    WordsConsWord(w, u + r);
  }

  /** The lemma set of a text: `{lemmatize(w) for w in re.findall(r"\w+", text)}`. */
  function LemmasOf(text: string, lemmatize: string -> string): (lemmas: set<string>) {
    set w | w in Words(text) :: lemmatize(w)
  }
}
