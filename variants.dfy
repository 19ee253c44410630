/**
 * Splitting a source phrase into its slash-separated variants
 * (`split_by_slash`), on top of a model of Python's `str.split(sep)`.
 */
module Variants {
  import opened Text

  /**
   * `s.split(sep)` with an explicit one-character separator: the pieces between
   * separators, always at least one (an empty string gives `[""]`), none of
   * which contains the separator.
   */
  function SplitOn(s: string, sep: char): (pieces: seq<string>)
    ensures |pieces| >= 1
    ensures forall k :: 0 <= k < |pieces| ==> sep !in pieces[k]
  {
    if s == [] then [[]]
    else
      var rest := SplitOn(s[1..], sep);
      if s[0] == sep then [[]] + rest
      else [[s[0]] + rest[0]] + rest[1..]
  }

  /** `sep.join(pieces)` */
  function Join(pieces: seq<string>, sep: char): (s: string)
    requires |pieces| >= 1
  {
    if |pieces| == 1 then pieces[0] else pieces[0] + [sep] + Join(pieces[1..], sep)
  }

  lemma {:induction false} JoinConsFirst(c: char, pieces: seq<string>, sep: char)
    requires |pieces| >= 1
    ensures Join([[c] + pieces[0]] + pieces[1..], sep) == [c] + Join(pieces, sep)
  {
    var ps := [[c] + pieces[0]] + pieces[1..];
    if |pieces| > 1 {
      assert ps[1..] == pieces[1..];
    }
  }

  /** Splitting loses nothing: joining the pieces with the separator gives the input back. */
  lemma {:induction false} JoinSplit(s: string, sep: char)
    ensures Join(SplitOn(s, sep), sep) == s
  {
    if s != [] {
      var rest := SplitOn(s[1..], sep);
      JoinSplit(s[1..], sep);
      if s[0] == sep {
        assert ([[]] + rest)[1..] == rest;
      } else {
        JoinConsFirst(s[0], rest, sep);
      }
      assert s == [s[0]] + s[1..];
    }
  }

  /** `[p for p in xs if p]`: the non-empty strings, in order. */
  function NonEmptyOnly(xs: seq<string>): (ys: seq<string>)
    ensures |ys| <= |xs|
  {
    if xs == [] then []
    else (if xs[0] != [] then [xs[0]] else []) + NonEmptyOnly(xs[1..])
  }

  /** The kept strings are exactly the non-empty ones of the input. */
  lemma {:induction false} NonEmptyOnlyMembers(xs: seq<string>)
    ensures forall y :: y in NonEmptyOnly(xs) <==> y in xs && y != []
  {
    if xs != [] {
      NonEmptyOnlyMembers(xs[1..]);
      assert xs == [xs[0]] + xs[1..];
    }
  }

  /**
   * The filter keeps order and multiplicity: it works element by element,
   * so filtering a concatenation concatenates the filtered parts, and a
   * single string is kept exactly when it is non-empty.
   */
  lemma {:induction false} NonEmptyOnlyAppend(a: seq<string>, b: seq<string>)
    ensures NonEmptyOnly(a + b) == NonEmptyOnly(a) + NonEmptyOnly(b)
    ensures forall x :: NonEmptyOnly([x]) == if x != [] then [x] else []
  {
    if a == [] {
      assert a + b == b;
    } else {
      assert (a + b)[0] == a[0] && (a + b)[1..] == a[1..] + b;
      NonEmptyOnlyAppend(a[1..], b);
    }
    forall x ensures NonEmptyOnly([x]) == if x != [] then [x] else [] {
      assert [x][1..] == [];
    }
  }

  lemma {:induction false} NonEmptyOnlyOfEmpties(xs: seq<string>)
    requires forall x :: x in xs ==> x == []
    ensures NonEmptyOnly(xs) == []
  {
    if xs != [] {
      assert xs[0] in xs;
      assert forall x :: x in xs[1..] ==> x in xs;
      NonEmptyOnlyOfEmpties(xs[1..]);
    }
  }

  /** `[p.strip() for p in pieces]` */
  function StripEach(pieces: seq<string>): (stripped: seq<string>)
    ensures |stripped| == |pieces|
  {
    seq(|pieces|, j requires 0 <= j < |pieces| => Strip(pieces[j]))
  }

  /** `[p.strip() for p in pieces if p.strip()]` */
  function NonBlankStripped(pieces: seq<string>): (parts: seq<string>) {
    NonEmptyOnly(StripEach(pieces))
  }

  /** Some piece between slashes has a non-whitespace character. */
  ghost predicate HasNonBlankPiece(phrase: string) {
    exists k :: 0 <= k < |SplitOn(phrase, '/')| && Strip(SplitOn(phrase, '/')[k]) != []
  }

  /**
   * `split_by_slash(phrase)`: the stripped, non-blank pieces between slashes in
   * source order, or `[phrase]` itself when there is none.  Never an empty list.
   */
  function SplitBySlash(phrase: string): (variants: seq<string>)
    ensures |variants| >= 1
  {
    var parts := NonBlankStripped(SplitOn(phrase, '/'));
    if parts != [] then parts else [phrase]
  }

  /** A variant as `split_by_slash` produces it from a phrase with some text: non-empty, stripped, without `/`. */
  ghost predicate IsCleanVariant(part: string) {
    part != [] && Strip(part) == part && '/' !in part
  }

  /**
   * When some piece is non-blank, the variants are the stripped pieces with
   * the empty ones dropped, in source order and with repeats kept (the
   * filter's order is `NonEmptyOnlyAppend`); each is non-empty, stripped and
   * free of `/`.
   */
  lemma SplitBySlashParts(phrase: string)
    requires HasNonBlankPiece(phrase)
    ensures SplitBySlash(phrase) == NonEmptyOnly(StripEach(SplitOn(phrase, '/')))
    ensures forall v :: v in SplitBySlash(phrase) <==> v in StripEach(SplitOn(phrase, '/')) && v != []
    ensures forall v :: v in SplitBySlash(phrase) ==> IsCleanVariant(v)
  {
    var pieces := SplitOn(phrase, '/');
    var stripped := StripEach(pieces);
    var parts := NonEmptyOnly(stripped);
    NonEmptyOnlyMembers(stripped);
    var j :| 0 <= j < |pieces| && Strip(pieces[j]) != [];
    assert stripped[j] in parts;
    assert SplitBySlash(phrase) == parts;
    forall v | v in parts ensures IsCleanVariant(v) {
      var j :| 0 <= j < |stripped| && stripped[j] == v;
      StripIdempotent(pieces[j]);
      StripChars(pieces[j]);
      assert '/' !in pieces[j];
    }
  }

  /** When every piece is blank, the phrase itself is the only variant, unchanged. */
  lemma SplitBySlashFallback(phrase: string)
    requires !HasNonBlankPiece(phrase)
    ensures SplitBySlash(phrase) == [phrase]
  {
    var pieces := SplitOn(phrase, '/');
    var stripped := StripEach(pieces);
    NonEmptyOnlyMembers(stripped);
    forall v | v in stripped ensures v == [] {
      var j :| 0 <= j < |stripped| && stripped[j] == v;
    }
    NonEmptyOnlyOfEmpties(stripped);
  }

  /** A phrase without slashes that has some non-whitespace text is one variant, stripped. */
  lemma SplitBySlashSingle(phrase: string)
    requires '/' !in phrase
    requires Strip(phrase) != []
    ensures SplitBySlash(phrase) == [Strip(phrase)]
  {
    assert SplitOn(phrase, '/') == [phrase] by {
      JoinSplit(phrase, '/');
      SplitWithoutSeparator(phrase, '/');
    }
  }

  lemma {:induction false} SplitWithoutSeparator(s: string, sep: char)
    requires sep !in s
    ensures SplitOn(s, sep) == [s]
  {
    if s != [] {
      assert sep !in s[1..];
      SplitWithoutSeparator(s[1..], sep);
      assert s == [s[0]] + s[1..];
    }
  }
}
