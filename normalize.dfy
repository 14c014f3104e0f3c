/** Header canonicalisation of the import page (pages/ImportData.tsx, `normalizeText`):
    lower-case, trim, fold the Alif forms to bare Alif, Ta Marbuta to Ha and
    Alif Maksura to Ya, then drop everything but a-z, 0-9 and U+0621..U+064A. */
module Normalize {
  import opened JsText
  import opened Seqs

  /** The three Alif forms (U+0623, U+0625, U+0622), Ta Marbuta (U+0629) and Alif Maksura (U+0649). */
  predicate IsFolded(c: char) {
    c == 'أ' || c == 'إ' || c == 'آ' || c == 'ة' || c == 'ى'
  }

  function FoldChar(c: char): (d: char)
    ensures !IsFolded(d)
    ensures !IsFolded(c) ==> d == c
  {
    if c == 'أ' || c == 'إ' || c == 'آ' then 'ا'
    else if c == 'ة' then 'ه'
    else if c == 'ى' then 'ي'
    else c
  }

  /** The three `replace` calls of the source, one per group of variants. */
  function Fold(s: string): (r: string)
    ensures |r| == |s| && forall i :: 0 <= i < |s| ==> r[i] == FoldChar(s[i])
  {
    seq(|s|, i requires 0 <= i < |s| => FoldChar(s[i]))
  }

  /** The character class `[a-z0-9ء-ي]`. */
  predicate IsKept(c: char) {
    'a' <= c <= 'z' || IsDigit(c) || 0x621 <= c as int <= 0x64A
  }

  /** `replace(/[^a-z0-9ء-ي]/g, '')`: the kept characters of `s`, in order. */
  function Strip(s: string): (r: string)
    ensures |r| <= |s|
    ensures forall i :: 0 <= i < |r| ==> IsKept(r[i])
  {
    if s == [] then []
    else if IsKept(s[0]) then [s[0]] + Strip(s[1..])
    else Strip(s[1..])
  }

  /** Stripping is exactly a filter on the kept class: every kept character
      survives, in order, and nothing else. */
  lemma {:induction false} StripIsFilter(s: string)
    ensures Strip(s) == Filter(s, IsKept)
  {
    if s != [] {
      StripIsFilter(s[1..]);
    }
  }

  /** Stripping removes characters and never introduces a folded variant. */
  lemma {:induction false} StripKeepsUnfolded(s: string)
    requires forall i :: 0 <= i < |s| ==> !IsFolded(s[i])
    ensures forall i :: 0 <= i < |Strip(s)| ==> !IsFolded(Strip(s)[i])
  {
    if s != [] {
      StripKeepsUnfolded(s[1..]);
    }
  }

  /** A string of kept characters is left as it is. */
  lemma {:induction false} StripOfKept(s: string)
    requires forall i :: 0 <= i < |s| ==> IsKept(s[i])
    ensures Strip(s) == s
  {
    if s != [] {
      StripOfKept(s[1..]);
    }
  }

  /** The characters a normalised header can contain. */
  predicate IsNormalChar(c: char) {
    IsKept(c) && !IsFolded(c)
  }

  predicate IsNormal(s: string) {
    forall i :: 0 <= i < |s| ==> IsNormalChar(s[i])
  }

  /** `normalizeText`: its output has only a-z, 0-9 and Arabic letters of U+0621..U+064A,
      none of them a folded variant, and the empty (falsy) input gives "". */
  function NormalizeText(text: string): (r: string)
    ensures IsNormal(r)
    ensures text == "" ==> r == ""
  {
    if text == "" then ""
    else
      var folded := Fold(Trim(ToLowerCase(text)));
      StripKeepsUnfolded(folded);
      Strip(folded)
  }

  lemma {:induction false} LowerOfNormal(s: string)
    requires IsNormal(s)
    ensures ToLowerCase(s) == s
  {
    if s != [] {
      LowerOfNormal(s[1..]);
      assert LowerChar(s[0]) == [s[0]];
    }
  }

  lemma FoldOfNormal(s: string)
    requires IsNormal(s)
    ensures Fold(s) == s
  {
  }

  /** A normal form is its own normal form. */
  lemma NormalizeOfNormal(n: string)
    requires IsNormal(n)
    ensures NormalizeText(n) == n
  {
    if n != "" {
      LowerOfNormal(n);
      assert !IsWhitespace(n[0]) && !IsWhitespace(n[|n| - 1]) by {
        assert IsNormalChar(n[0]) && IsNormalChar(n[|n| - 1]);
      }
      TrimOfTrimmed(n);
      FoldOfNormal(n);
      assert forall i :: 0 <= i < |n| ==> IsKept(n[i]) by {
        assert forall i :: 0 <= i < |n| ==> IsNormalChar(n[i]);
      }
      StripOfKept(n);
    }
  }

  /** Normalising twice is normalising once. */
  lemma NormalizeIdempotent(text: string)
    ensures NormalizeText(NormalizeText(text)) == NormalizeText(text)
  {
    NormalizeOfNormal(NormalizeText(text));
  }

  lemma {:induction false} StripAppend(s: string, t: string)
    ensures Strip(s + t) == Strip(s) + Strip(t)
  {
    if s == [] {
      assert s + t == t;
    } else {
      assert (s + t)[0] == s[0];
      assert (s + t)[1..] == s[1..] + t;
      StripAppend(s[1..], t);
    }
  }

  lemma {:induction false} StripOfWhitespace(s: string)
    requires forall i :: 0 <= i < |s| ==> IsWhitespace(s[i])
    ensures Strip(s) == ""
  {
    if s != [] {
      assert !IsKept(s[0]);
      StripOfWhitespace(s[1..]);
    }
  }

  lemma FoldAppend(s: string, t: string)
    ensures Fold(s + t) == Fold(s) + Fold(t)
  {
  }

  lemma StripFoldAppend(a: string, b: string)
    ensures Strip(Fold(a + b)) == Strip(Fold(a)) + Strip(Fold(b))
  {
    FoldAppend(a, b);
    StripAppend(Fold(a), Fold(b));
  }

  /** Whitespace is neither folded nor kept. */
  lemma StripFoldOfWhitespace(w: string)
    requires forall i :: 0 <= i < |w| ==> IsWhitespace(w[i])
    ensures Strip(Fold(w)) == ""
  {
    assert Fold(w) == w;
    StripOfWhitespace(w);
  }

  lemma StripFoldTrimStart(s: string)
    ensures Strip(Fold(TrimStart(s))) == Strip(Fold(s))
  {
    var r := TrimStart(s);
    var w := s[..|s| - |r|];
    assert s == w + r;
    StripFoldAppend(w, r);
    StripFoldOfWhitespace(w);
  }

  lemma StripFoldTrimEnd(s: string)
    ensures Strip(Fold(TrimEnd(s))) == Strip(Fold(s))
  {
    var r := TrimEnd(s);
    var w := s[|r|..];
    assert s == r + w;
    assert forall i :: 0 <= i < |w| ==> IsWhitespace(w[i]) by {
      forall i | 0 <= i < |w| ensures IsWhitespace(w[i]) {
        assert w[i] == s[|r| + i];
      }
    }
    StripFoldAppend(r, w);
    StripFoldOfWhitespace(w);
  }

  /** Stripping removes whatever trimming would have removed. */
  lemma StripFoldTrim(s: string)
    ensures Strip(Fold(Trim(s))) == Strip(Fold(s))
  {
    StripFoldTrimEnd(TrimStart(s));
    StripFoldTrimStart(s);
  }

  /** Trimming before stripping makes no difference: `normalizeText` of a non-empty
      header is the kept characters of its folded lower-case form. */
  lemma NormalizeUntrimmed(text: string)
    requires text != ""
    ensures NormalizeText(text) == Strip(Fold(ToLowerCase(text)))
  {
    StripFoldTrim(ToLowerCase(text));
  }

  lemma LowerAround(prefix: string, c: char, suffix: string)
    requires LowerChar(c) == [c]
    ensures ToLowerCase(prefix + [c] + suffix) == ToLowerCase(prefix) + [c] + ToLowerCase(suffix)
  {
    ToLowerCaseAppend(prefix + [c], suffix);
    ToLowerCaseAppend(prefix, [c]);
    assert ToLowerCase([c]) == [c] by {
      assert [c][1..] == [];
    }
  }

  lemma FoldAround(prefix: string, c: char, d: char, suffix: string)
    requires FoldChar(c) == FoldChar(d)
    ensures Fold(prefix + [c] + suffix) == Fold(prefix + [d] + suffix)
  {
    FoldAppend(prefix + [c], suffix);
    FoldAppend(prefix, [c]);
    FoldAppend(prefix + [d], suffix);
    FoldAppend(prefix, [d]);
  }

  /** The headers "الإسم التجاري" and "الاسم التجاري" agree: a hamza-carrying Alif and a
      bare Alif at the same place give the same canonical form, whatever surrounds them. */
  lemma AlifVariantsMatch(prefix: string, suffix: string)
    ensures NormalizeText(prefix + "إ" + suffix) == NormalizeText(prefix + "ا" + suffix)
  {
    LowerAround(prefix, 'إ', suffix);
    LowerAround(prefix, 'ا', suffix);
    FoldAround(ToLowerCase(prefix), 'إ', 'ا', ToLowerCase(suffix));
    NormalizeUntrimmed(prefix + "إ" + suffix);
    NormalizeUntrimmed(prefix + "ا" + suffix);
  }
}
