/** remove_hebrew_marks: deleting Hebrew accents, vowel points and related marks. */
module Marks {
  import opened Text

  /** The code points U+0591 to U+05C2 inclusive: cantillation accents (U+0591-U+05AF),
      vowel points (U+05B0-U+05BB), and U+05BC-U+05C2: dagesh, meteg, maqaf, rafe,
      paseq and the shin and sin dots. */
  predicate IsMark(c: char)
  {
    '\U{0591}' <= c <= '\U{05C2}'
  }

  predicate NoMarks(s: string)
  {
    forall i :: 0 <= i < |s| ==> !IsMark(s[i])
  }

  /** The regular-expression substitution of '' for every code point in the mark range. */
  function FilterMarks(s: string): (r: string)
    ensures NoMarks(r)
  {
    if s == [] then []
    else if IsMark(s[0]) then FilterMarks(s[1..])
    else [s[0]] + FilterMarks(s[1..])
  }

  /** What the filter leaves is a subsequence of s (order is kept) holding every
      occurrence of every non-mark code point of s (nothing else is lost). */
  lemma {:induction false} FilterMarksKeeps(s: string)
    ensures IsSubsequence(FilterMarks(s), s)
    ensures forall c :: !IsMark(c) ==> multiset(FilterMarks(s))[c] == multiset(s)[c]
  {
    if s != [] {
      FilterMarksKeeps(s[1..]);
      assert s == [s[0]] + s[1..];
      var r := FilterMarks(s[1..]);
      if !IsMark(s[0]) {
        assert ([s[0]] + r)[1..] == r;
      }
      SubsequenceSkip(r, s);
    }
  }

  lemma SubsequenceSkip(a: string, b: string)
    requires b != [] && IsSubsequence(a, b[1..])
    ensures IsSubsequence(a, b)
  {
  }

  /** Filtering distributes over concatenation: the marks of each piece are removed in place. */
  lemma {:induction false} FilterMarksAppend(a: string, b: string)
    ensures FilterMarks(a + b) == FilterMarks(a) + FilterMarks(b)
  {
    if a != [] {
      assert (a + b)[0] == a[0];
      assert (a + b)[1..] == a[1..] + b;
      FilterMarksAppend(a[1..], b);
    } else {
      assert a + b == b;
    }
  }

  /** A string without marks is left unchanged. */
  lemma {:induction false} FilterMarksNoMarks(s: string)
    requires NoMarks(s)
    ensures FilterMarks(s) == s
  {
    if s != [] {
      FilterMarksNoMarks(s[1..]);
    }
  }

  /** Filtering an already filtered string changes nothing. */
  lemma FilterMarksIdempotent(s: string)
    ensures FilterMarks(FilterMarks(s)) == FilterMarks(s)
  {
    FilterMarksNoMarks(FilterMarks(s));
  }

  /** Unicode canonical decomposition (NFD) and composition (NFC) are library code
      defined by Unicode Standard Annex #15; the model takes them as given functions. */
  datatype Normalizer = Normalizer(nfd: string -> string, nfc: string -> string)

  /** remove_hebrew_marks: decompose, delete the marks, recompose. */
  function RemoveHebrewMarks(u: Normalizer, text: string): string
  {
    u.nfc(FilterMarks(u.nfd(text)))
  }

  /** remove_hebrew_marks is idempotent, given three properties of canonical
      normalisation: decomposing a recomposed string gives the decomposition of the
      original, recomposing a decomposition gives the composition of the original, and
      decomposing a decomposed string with its marks deleted brings in no new mark. */
  lemma RemoveHebrewMarksIdempotent(u: Normalizer, s: string)
    requires forall t :: u.nfd(u.nfc(t)) == u.nfd(t)
    requires forall t :: u.nfc(u.nfd(t)) == u.nfc(t)
    requires forall t :: NoMarks(u.nfd(FilterMarks(u.nfd(t))))
    ensures RemoveHebrewMarks(u, RemoveHebrewMarks(u, s)) == RemoveHebrewMarks(u, s)
  {
    var y := FilterMarks(u.nfd(s));
    assert u.nfd(u.nfc(y)) == u.nfd(y);
    assert NoMarks(u.nfd(y));
    FilterMarksNoMarks(u.nfd(y));
    assert u.nfc(u.nfd(y)) == u.nfc(y);
  }
}
