/** Clean-up of the OCR transcript before any pattern is run over it
    (`normalize` in BlNumberExtractorService). */
module Normalizer {
  import opened Text

  /** Zero-width space, non-joiner, joiner (U+200B..U+200D) and the byte order mark U+FEFF. */
  predicate IsZeroWidth(c: char)
  {
    '\U{200B}' <= c <= '\U{200D}' || c == '\U{FEFF}'
  }

  /** No-break space U+00A0, figure space U+2007, narrow no-break space U+202F. */
  predicate IsNoBreakSpace(c: char)
  {
    c == '\U{A0}' || c == '\U{2007}' || c == '\U{202F}'
  }

  /** Hyphens and dashes U+2010..U+2015, minus sign U+2212, small em dash U+FE58,
      small hyphen-minus U+FE63 and full-width hyphen-minus U+FF0D. */
  predicate IsUnicodeDash(c: char)
  {
    '\U{2010}' <= c <= '\U{2015}' || c == '\U{2212}' || c == '\U{FE58}' || c == '\U{FE63}' || c == '\U{FF0D}'
  }

  /** A character none of the three replacement passes touches. */
  predicate IsPlain(c: char)
  {
    !IsZeroWidth(c) && !IsNoBreakSpace(c) && !IsUnicodeDash(c)
  }

  /** The transcript clean-up. `nfkc` stands for `Normalizer.normalize(_, NFKC)`,
      a library call this model does not interpret. A null transcript gives "". */
  function Normalize(ocrText: Option<string>, nfkc: string -> string): (r: string)
    ensures ocrText.None? ==> r == ""
    ensures forall i :: 0 <= i < |r| ==> IsPlain(r[i])
  {
    match ocrText
    case None => ""
    case Some(s) =>
      var t := nfkc(s);
      var withoutZeroWidth := ReplaceEach(t, IsZeroWidth, "");
      var withPlainSpaces := ReplaceEach(withoutZeroWidth, IsNoBreakSpace, " ");
      ReplaceEach(withPlainSpaces, IsUnicodeDash, "-")
  }

  /** What one character of the NFKC output becomes. */
  function CleanChar(c: char): string
  {
    if IsZeroWidth(c) then ""
    else if IsNoBreakSpace(c) then " "
    else if IsUnicodeDash(c) then "-"
    else [c]
  }

  /** Reference definition: the clean-up as one left-to-right, character-by-character pass. */
  function Clean(t: string): string
  {
    if t == [] then [] else CleanChar(t[0]) + Clean(t[1..])
  }

  lemma {:induction false} CleanAppend(a: string, b: string)
    ensures Clean(a + b) == Clean(a) + Clean(b)
  {
    if a == [] {
      assert a + b == b;
    } else {
      assert (a + b)[1..] == a[1..] + b;
      CleanAppend(a[1..], b);
    }
  }

  /** The three `replaceAll` passes of the source equal the one-pass reference:
      zero-width characters are deleted, the no-break spaces become ' ', the dashes
      become '-', and every other character is kept, in order. */
  lemma {:induction false} NormalizeIsCharwise(s: string, nfkc: string -> string)
    ensures Normalize(Some(s), nfkc) == Clean(nfkc(s))
  {
    ThreePassesAreClean(nfkc(s));
  }

  lemma {:induction false} ThreePassesAreClean(t: string)
    ensures ReplaceEach(ReplaceEach(ReplaceEach(t, IsZeroWidth, ""), IsNoBreakSpace, " "), IsUnicodeDash, "-")
            == Clean(t)
  {
    if t != [] {
      var c, rest := t[0], t[1..];
      var p1 := if IsZeroWidth(c) then "" else [c];
      var r1 := ReplaceEach(rest, IsZeroWidth, "");
      ReplaceEachAppend(p1, r1, IsNoBreakSpace, " ");
      var p2 := ReplaceEach(p1, IsNoBreakSpace, " ");
      var r2 := ReplaceEach(r1, IsNoBreakSpace, " ");
      ReplaceEachAppend(p2, r2, IsUnicodeDash, "-");
      ThreePassesAreClean(rest);
      assert ReplaceEach(p2, IsUnicodeDash, "-") == CleanChar(c);
    }
  }

  /** Cleaning a cleaned transcript changes nothing. */
  lemma {:induction false} CleanIdempotent(t: string)
    ensures Clean(Clean(t)) == Clean(t)
  {
    if t != [] {
      CleanIdempotent(t[1..]);
      CleanAppend(CleanChar(t[0]), Clean(t[1..]));
      assert Clean(CleanChar(t[0])) == CleanChar(t[0]);
    }
  }
}
