/** Laws of the whole conversion: zero and non-numeric input, the sign,
    the fraction, leading zeros, and a few worked inputs. */
module ConversionLaws {
  import opened DigitStrings
  import opened LocaleData
  import opened Segmentation
  import opened Lexicon
  import opened Converter

  // ---------------------------------------------------------------------
  // How the input is read

  /** How a plain digit string is read: all of it is digits, there is no
      point, and it is a positive number unless every digit is '0'. */
  lemma ReadingOfDigits(s: string)
    requires AllDigits(s)
    ensures ReadDigits(s) == s
    ensures SplitAtPoint(s) == (s, "")
    ensures ParseFloatSign(s) ==
      if s == "" then NotANumber else if AllZeroDigits(s) then ZeroValue else PositiveValue
    ensures UnsignedPart(s) == s
  {
  }

  /** How `i + "." + f` is read for a non-zero digit string `i`: a positive
      number whose integer part is `i` and whose fraction is `f`. */
  lemma ReadingWithPoint(i: string, f: string)
    requires AllDigits(i) && !AllZeroDigits(i)
    ensures ParseFloatSign(i + "." + f) == PositiveValue
    ensures UnsignedPart(i + "." + f) == i + "." + f
    ensures SplitAtPoint(i + "." + f) == (i, f)
  {
    var s := i + "." + f;
    assert s[|i|] == '.';
    assert forall p :: 0 <= p < |i| ==> s[p] == i[p];
    var k := LeadingDigits(s);
    assert k == |i|;
    assert s[..k] == i;
    var p :| 0 <= p < |i| && i[p] != '0';
    var digits := ReadDigits(s);
    assert digits[p] == i[p];
    var idx := IndexOf(s, '.');
    assert idx == |i|;
    assert s[idx + 1..] == f;
  }

  /** Text without a single digit is not a number, so it reads as zero. */
  lemma NoDigitsReadAsZero(s: string, loc: Locale)
    requires ValidTables(loc)
    requires forall p :: 0 <= p < |s| ==> !IsDigit(s[p])
    ensures ParseFloatSign(s) == NotANumber
    ensures Admissible(s, loc) && Convert(s, loc) == loc.zero
  {
  }

  // ---------------------------------------------------------------------
  // Zero

  /** "0.00" is zero: its integer and fraction digits are all '0'. */
  lemma ZeroWithZeroFraction(loc: Locale)
    requires ValidTables(loc)
    ensures ParseFloatSign("0.00") == ZeroValue
    ensures Admissible("0.00", loc) && Convert("0.00", loc) == loc.zero
  {
  }

  /** "-0" is zero too: the sign does not make it negative. */
  lemma NegativeZero(loc: Locale)
    requires ValidTables(loc)
    ensures ParseFloatSign("-0") == ZeroValue
    ensures Admissible("-0", loc) && Convert("-0", loc) == loc.zero
  {
  }

  /** A number whose digits read are all '0' is zero, with or without a '-'
      in front, and reads as the zero word. */
  lemma ZeroDigitsReadAsZero(x: string, loc: Locale)
    requires ValidTables(loc)
    requires ReadDigits(x) != "" && AllZeroDigits(ReadDigits(x))
    ensures ParseFloatSign(x) == ZeroValue && ParseFloatSign("-" + x) == ZeroValue
    ensures Admissible(x, loc) && Convert(x, loc) == loc.zero
    ensures Admissible("-" + x, loc) && Convert("-" + x, loc) == loc.zero
  {
    assert x[0] != '-';
    assert ("-" + x)[1..] == x;
  }

  /** Zeros, with or without a '-' in front, read as the zero word. */
  lemma ZerosReadAsZero(z: string, loc: Locale)
    requires ValidTables(loc)
    requires z != "" && AllDigits(z) && AllZeroDigits(z)
    ensures Admissible(z, loc) && Convert(z, loc) == loc.zero
    ensures Admissible("-" + z, loc) && Convert("-" + z, loc) == loc.zero
  {
    ReadingOfDigits(z);
    ZeroDigitsReadAsZero(z, loc);
  }

  /** Zeros followed by a point and more zeros, with or without a '-' in
      front, read as the zero word. */
  lemma ZerosWithPointReadAsZero(z: string, f: string, loc: Locale)
    requires ValidTables(loc)
    requires z != "" && AllDigits(z) && AllZeroDigits(z)
    requires AllDigits(f) && AllZeroDigits(f)
    ensures Admissible(z + "." + f, loc) && Convert(z + "." + f, loc) == loc.zero
    ensures Admissible("-" + z + "." + f, loc) && Convert("-" + z + "." + f, loc) == loc.zero
  {
    var x := z + "." + f;
    DigitsWithPointRead(z, f);
    assert AllZeroDigits(z + f);
    ZeroDigitsReadAsZero(x, loc);
    AppendAssoc("-", z, ".");
    AppendAssoc("-", z + ".", f);
  }

  /** `parseFloat` reads all of `i.f` when `i` and `f` are digit strings. */
  lemma DigitsWithPointRead(i: string, f: string)
    requires AllDigits(i) && AllDigits(f)
    ensures ReadDigits(i + "." + f) == i + f
  {
    var x := i + "." + f;
    assert LeadingDigits(x) == |i| && x[|i|] == '.' && x[..|i|] == i && x[|i| + 1..] == f by {
      assert x == i + ("." + f);
      LeadingDigitsAppend(i, "." + f);
    }
    assert LeadingDigits(f) == |f| by {
      LeadingDigitsAppend(f, "");
      assert f + "" == f;
    }
    ReadWithPoint(x, |i|);
    assert f[..|f|] == f;
  }

  // ---------------------------------------------------------------------
  // Sign and fraction

  /** A digit string with a non-zero digit reads as the words of its groups. */
  lemma DigitsConvert(s: string, loc: Locale)
    requires ValidTables(loc) && AllDigits(s) && !AllZeroDigits(s)
    ensures Admissible(s, loc) <==> Spellable(s, loc)
    ensures Admissible(s, loc) ==> Convert(s, loc) == IntegerWords(s, loc)
  {
    ReadingOfDigits(s);
    if Admissible(s, loc) {
      ConvertParts(s, loc);
      assert FractionWords("") == "";
      assert "" + IntegerWords(s, loc) + "" == IntegerWords(s, loc);
    }
  }

  /** Digits in front do not stop the digit prefix: it runs on into `b`. */
  lemma {:induction false} LeadingDigitsAppend(a: string, b: string)
    requires AllDigits(a)
    ensures LeadingDigits(a + b) == |a| + LeadingDigits(b)
  {
    if |a| > 0 {
      LeadingDigitsAppend(a[1..], b);
      assert (a + b)[1..] == a[1..] + b;
    } else {
      assert a + b == b;
    }
  }

  /** Removing every '-' keeps the digit prefix, which has no '-', in front,
      and can only make the digit prefix longer. */
  lemma StripKeepsDigitPrefix(x: string)
    ensures LeadingDigits(x) <= LeadingDigits(StripMinus(x))
    ensures StripMinus(x)[..LeadingDigits(x)] == x[..LeadingDigits(x)]
  {
    var k := LeadingDigits(x);
    assert x == x[..k] + x[k..];
    StripMinusAppend(x[..k], x[k..]);
    assert StripMinus(x) == x[..k] + StripMinus(x[k..]);
    LeadingDigitsAppend(x[..k], StripMinus(x[k..]));
  }

  /** What `parseFloat` reads from a string is a prefix of what it reads once
      every '-' is removed. */
  lemma ReadDigitsAfterStrip(u: string)
    ensures ReadDigits(u) <= ReadDigits(StripMinus(u))
  {
    var k := LeadingDigits(u);
    if k < |u| && u[k] == '.' {
      StripAfterPoint(u, k);
    } else {
      StripWithoutPoint(u, k);
    }
  }

  /** Without a '.' after the digit prefix, `parseFloat` reads that prefix
      alone. */
  lemma ReadWithoutPoint(x: string)
    requires !(LeadingDigits(x) < |x| && x[LeadingDigits(x)] == '.')
    ensures ReadDigits(x) == x[..LeadingDigits(x)]
  {
  }

  /** With a '.' after the digit prefix, `parseFloat` reads that prefix and
      the digits right after the point. */
  lemma ReadWithPoint(x: string, k: nat)
    requires k == LeadingDigits(x) && k < |x| && x[k] == '.'
    ensures ReadDigits(x) == x[..k] + x[k + 1..][..LeadingDigits(x[k + 1..])]
  {
    assert x[k..][1..] == x[k + 1..];
  }

  /** Whatever follows, `parseFloat` reads the whole digit prefix first. */
  lemma DigitPrefixRead(x: string)
    ensures LeadingDigits(x) <= |ReadDigits(x)|
    ensures ReadDigits(x)[..LeadingDigits(x)] == x[..LeadingDigits(x)]
  {
  }

  /** The case where the digit prefix is followed by a '.': both readings go
      on after the point, the second one at least as far. */
  lemma StripAfterPoint(u: string, k: nat)
    requires k == LeadingDigits(u) && k < |u| && u[k] == '.'
    ensures ReadDigits(u) <= ReadDigits(StripMinus(u))
  {
    var t := u[k + 1..];
    var t' := StripMinus(t);
    var v := StripMinus(u);
    PointAfterStrip(u, k);
    var j, j' := LeadingDigits(t), LeadingDigits(t');
    StripKeepsDigitPrefix(t);
    ReadWithPoint(u, k);
    ReadWithPoint(v, k);
    PrefixAfterCommonPart(u[..k], t, t', j, j');
  }

  /** A common part followed by the first `j` characters of `b` is a prefix
      of that part followed by at least as many characters of a string that
      agrees with `b` on them. */
  lemma PrefixAfterCommonPart(a: string, b: string, c: string, j: nat, j': nat)
    requires j <= j' <= |c| && j <= |b| && c[..j] == b[..j]
    ensures a + b[..j] <= a + c[..j']
  {
    assert (a + c[..j'])[..|a| + j] == a + c[..j'][..j];
  }

  /** Removing every '-' from a string whose digit prefix is followed by a
      '.' keeps that prefix and that point, and removes the '-' after it. */
  lemma PointAfterStrip(u: string, k: nat)
    requires k == LeadingDigits(u) && k < |u| && u[k] == '.'
    ensures var v := StripMinus(u);
      LeadingDigits(v) == k && k < |v| && v[..k] == u[..k] && v[k] == '.' &&
      v[k + 1..] == StripMinus(u[k + 1..])
  {
    var t := u[k + 1..];
    var v := StripMinus(u);
    assert v == u[..k] + ("." + StripMinus(t)) by {
      assert u == u[..k] + ("." + t);
      StripMinusAppend(u[..k], "." + t);
      StripMinusAppend(".", t);
    }
    LeadingDigitsAppend(u[..k], "." + StripMinus(t));
  }

  /** The case without a '.' after the digit prefix: only that prefix is
      read, and it stays in front after the removal. */
  lemma StripWithoutPoint(u: string, k: nat)
    requires k == LeadingDigits(u) && !(k < |u| && u[k] == '.')
    ensures ReadDigits(u) <= ReadDigits(StripMinus(u))
  {
    var v := StripMinus(u);
    var k' := LeadingDigits(v);
    StripKeepsDigitPrefix(u);
    ReadWithoutPoint(u);
    DigitPrefixRead(v);
    ShorterPrefix(ReadDigits(v), v, k, k');
  }

  /** Two strings that agree up to `k'` agree up to any `k` below it. */
  lemma ShorterPrefix(w: string, v: string, k: nat, k': nat)
    requires k <= k' <= |w| && k' <= |v| && w[..k'] == v[..k']
    ensures w[..k] == v[..k]
  {
    assert w[..k] == w[..k'][..k];
    assert v[..k] == v[..k'][..k];
  }

  /** Removing every '-' from a negative number leaves a positive one: the
      digits read before include a non-zero one, and are still read. */
  lemma StrippedReadsPositive(s: string)
    requires ParseFloatSign(s) == NegativeValue
    ensures ParseFloatSign(StripMinus(s)) == PositiveValue
  {
    var u := s[1..];
    var t := StripMinus(s);
    assert s[0] == '-' && !AllZeroDigits(ReadDigits(u));
    assert t == StripMinus(u);
    ReadDigitsAfterStrip(u);
    NonZeroPrefix(ReadDigits(u), ReadDigits(t));
    assert !(|t| > 0 && t[0] == '-');
  }

  /** A string that starts with a string having a non-zero digit has one too. */
  lemma NonZeroPrefix(d: string, e: string)
    requires d <= e && !AllZeroDigits(d)
    ensures e != "" && !AllZeroDigits(e)
  {
    var p :| 0 <= p < |d| && d[p] != '0';
    assert e[p] == d[p];
  }

  /** A negative number reads as the negative word followed by the words of
      the same string with every '-' removed; both are defined on the same
      inputs. So `"-" + t` reads as the negative word before the words of `t`
      when `t` has no '-'. */
  lemma NegationLaw(s: string, loc: Locale)
    requires ValidTables(loc)
    requires ParseFloatSign(s) == NegativeValue
    ensures ParseFloatSign(StripMinus(s)) == PositiveValue
    ensures Admissible(s, loc) <==> Admissible(StripMinus(s), loc)
    ensures Admissible(s, loc) ==> Convert(s, loc) == loc.negative + Convert(StripMinus(s), loc)
  {
    var t := StripMinus(s);
    StrippedReadsPositive(s);
    assert UnsignedPart(s) == t;
    assert UnsignedPart(t) == t;
    if Admissible(s, loc) {
      ConvertParts(s, loc);
      ConvertParts(t, loc);
      var (i, f) := SplitAtPoint(t);
      assert "" + IntegerWords(i, loc) == IntegerWords(i, loc);
      AppendAssoc(loc.negative, IntegerWords(i, loc), FractionWords(f));
    }
  }

  /** A fraction contributes " point " and its digits without the trailing
      zeros, copied as they are; a fraction of zeros contributes nothing, so
      "5.000" reads as "5". */
  lemma FractionLaw(i: string, f: string, loc: Locale)
    requires ValidTables(loc) && AllDigits(i) && !AllZeroDigits(i)
    ensures Admissible(i + "." + f, loc) <==> Admissible(i, loc)
    ensures Admissible(i, loc) ==>
      Convert(i + "." + f, loc) ==
        Convert(i, loc) + (if TrimTrailingZeros(f) == "" then "" else " point " + TrimTrailingZeros(f))
  {
    ReadingWithPoint(i, f);
    DigitsConvert(i, loc);
    if Admissible(i, loc) {
      ConvertParts(i + "." + f, loc);
      assert "" + IntegerWords(i, loc) == IntegerWords(i, loc);
    }
  }

  /** Trimming undoes appending zeros to a fraction that does not end in
      '0': the trimmed fraction is unique. */
  lemma {:induction false} TrimRecoversDigits(r: string, k: nat)
    requires r == "" || r[|r| - 1] != '0'
    ensures TrimTrailingZeros(r + Zeros(k)) == r
  {
    if k > 0 {
      TrimRecoversDigits(r, k - 1);
      var s := r + Zeros(k);
      assert s[..|s| - 1] == r + Zeros(k - 1);
      assert s[|s| - 1] == '0';
    } else {
      assert r + Zeros(0) == r;
    }
  }

  /** Zeros at the end of a fraction are not read: `i.r000` reads as `i.r`,
      and as plain `i` when no digit of the fraction is left. */
  lemma TrailingZerosDropped(i: string, r: string, k: nat, loc: Locale)
    requires ValidTables(loc) && AllDigits(i) && !AllZeroDigits(i)
    requires r == "" || r[|r| - 1] != '0'
    ensures Admissible(i + "." + r + Zeros(k), loc) <==> Admissible(i, loc)
    ensures Admissible(i, loc) ==>
      Convert(i + "." + r + Zeros(k), loc) == Convert(i, loc) + (if r == "" then "" else " point " + r)
  {
    TrimRecoversDigits(r, k);
    AppendAssoc(i, ".", r);
    AppendAssoc(i + ".", r, Zeros(k));
    FractionLaw(i, r + Zeros(k), loc);
  }

  // ---------------------------------------------------------------------
  // Leading zeros

  /** One more leading zero adds a group "000" in front exactly when the
      length was a multiple of three, and changes no group otherwise. */
  lemma GroupsWithLeadingZero(s: string)
    requires AllDigits(s) && s != ""
    ensures AllDigits("0" + s)
    ensures PrepareNumber("0" + s) ==
      if |s| % 3 == 0 then ["000"] + PrepareNumber(s) else PrepareNumber(s)
  {
    var z := "0" + s;
    assert AllDigits(z);
    if |s| % 3 == 0 {
      assert PrepareNumber(z) == Chunk("000" + s) by {
        assert Pad(z) == "000" + s;
      }
      assert PrepareNumber(s) == Chunk(s) by {
        assert Pad(s) == s;
      }
      ChunkAfterZeroGroup(s);
    } else {
      assert Pad(z) == Pad(s) by {
        if |s| % 3 == 1 {
          assert Pad(z) == "0" + z;
        } else {
          assert Pad(z) == z;
        }
      }
    }
  }

  lemma ChunkAfterZeroGroup(s: string)
    requires |s| % 3 == 0
    ensures Chunk("000" + s) == ["000"] + Chunk(s)
  {
  }

  /** Leading zeros change nothing in the words of a positive integer. */
  lemma LeadingZeroLaw(s: string, loc: Locale)
    requires ValidTables(loc) && AllDigits(s) && !AllZeroDigits(s)
    ensures AllDigits("0" + s) && !AllZeroDigits("0" + s)
    ensures Admissible("0" + s, loc) <==> Admissible(s, loc)
    ensures Admissible(s, loc) ==> Convert("0" + s, loc) == Convert(s, loc)
  {
    var z := "0" + s;
    assert !AllZeroDigits(z) by {
      var p :| 0 <= p < |s| && s[p] != '0';
      assert z[p + 1] == s[p];
    }
    GroupsWithLeadingZero(s);
    DigitsConvert(s, loc);
    DigitsConvert(z, loc);
    if |s| % 3 == 0 {
      var ws := Lexicalize(PrepareNumber(s), loc);
      SilentFrontGroup(PrepareNumber(s), loc);
      SilentLeadingGroup(ws, |ws|, loc.letters[4]);
    }
  }

  /** The group "000" in front adds an empty phrase in front. */
  lemma SilentFrontGroup(gs: seq<string>, loc: Locale)
    requires ValidTables(loc) && AllGroups(gs)
    ensures AllGroups(["000"] + gs)
    ensures Lexicalize(["000"] + gs, loc) == [""] + Lexicalize(gs, loc)
  {
    ValueOfThree("000");
    var long := ["000"] + gs;
    assert AllGroups(long) by {
      forall k | 0 <= k < |long|
        ensures IsGroup(long[k])
      {
        if k > 0 {
          assert long[k] == gs[k - 1];
        }
      }
    }
    var a, b := Lexicalize(long, loc), [""] + Lexicalize(gs, loc);
    forall k | 0 <= k < |a|
      ensures a[k] == b[k]
    {
      if k > 0 {
        assert long[k] == gs[k - 1];
      }
    }
  }

  // ---------------------------------------------------------------------
  // Numbers of one group, and worked inputs

  /** A number of at most three digits is one group, padded with zeros on
      the left; when that group has words they take the first scale suffix. */
  lemma OneGroup(s: string, loc: Locale)
    requires ValidTables(loc) && |loc.letters[4]| >= 1
    requires AllDigits(s) && 0 < |s| <= 3
    ensures PrepareNumber(s) == [Pad(s)]
    ensures Spellable(s, loc)
    ensures IntegerWords(s, loc) ==
      var w := TinyNumToWord(Pad(s), loc);
      if w == "" then "" else w + loc.letters[4][0]
  {
    var p := Pad(s);
    assert AllDigits(p);
    assert Chunk(p) == [p] by {
      assert p[..3] == p && p[3..] == [];
    }
    var ws := Lexicalize([p], loc);
    assert Phrases(ws, 0, loc.letters[4]) == [];
  }

  /** A positive number of at most three digits reads as the phrase of its
      one group followed by the first scale suffix. */
  lemma OneGroupConvert(s: string, loc: Locale)
    requires ValidTables(loc) && WordsNonEmpty(loc) && |loc.letters[4]| >= 1
    requires AllDigits(s) && !AllZeroDigits(s) && 0 < |s| <= 3
    ensures Admissible(s, loc)
    ensures Convert(s, loc) == TinyNumToWord(Pad(s), loc) + loc.letters[4][0]
  {
    OneGroup(s, loc);
    assert AllDigits(Pad(s));
    LeadingZerosValue(|Pad(s)| - |s|, s);
    ValueZeroIff(s);
    SilentIffZero(Pad(s), loc);
    DigitsConvert(s, loc);
  }

  /** How `z.f` is read when `z` is a run of zeros and `f` has a non-zero
      digit: a positive number whose integer part is `z` and whose fraction
      is `f`. */
  lemma ReadingBelowOne(z: string, f: string)
    requires z != "" && AllDigits(z) && AllZeroDigits(z)
    requires AllDigits(f) && !AllZeroDigits(f)
    ensures ParseFloatSign(z + "." + f) == PositiveValue
    ensures UnsignedPart(z + "." + f) == z + "." + f
    ensures SplitAtPoint(z + "." + f) == (z, f)
  {
    var s := z + "." + f;
    DigitsWithPointRead(z, f);
    var p :| 0 <= p < |f| && f[p] != '0';
    assert (z + f)[|z| + p] == f[p];
    assert s[0] == z[0];
    assert s[|z|] == '.';
    assert forall k :: 0 <= k < |z| ==> s[k] == z[k];
    assert IndexOf(s, '.') == |z|;
    assert s[..|z|] == z && s[|z| + 1..] == f;
  }

  /** Groups cut from a run of zeros are runs of zeros. */
  lemma {:induction false} ZeroGroups(gs: seq<string>)
    requires AllZeroDigits(Concat(gs))
    ensures forall i :: 0 <= i < |gs| ==> AllZeroDigits(gs[i])
  {
    if |gs| > 0 {
      var c := Concat(gs);
      assert forall k :: 0 <= k < |gs[0]| ==> c[k] == gs[0][k];
      assert forall k :: 0 <= k < |Concat(gs[1..])| ==> c[|gs[0]| + k] == Concat(gs[1..])[k];
      ZeroGroups(gs[1..]);
      assert forall i :: 1 <= i < |gs| ==> gs[i] == gs[1..][i - 1];
    }
  }

  /** Groups without words give no phrase, whatever the suffixes. */
  lemma {:induction false} SilentPhrases(ws: seq<string>, k: nat, scales: seq<string>)
    requires k <= |ws| && forall i :: 0 <= i < |ws| ==> ws[i] == ""
    ensures ScalesFit(ws, scales) && Phrases(ws, k, scales) == []
  {
    if k > 0 {
      SilentPhrases(ws, k - 1, scales);
    }
  }

  /** An integer part made of zeros only is spellable and has no words: all
      its groups are 000. */
  lemma ZeroIntegerPart(z: string, loc: Locale)
    requires ValidTables(loc)
    requires z != "" && AllDigits(z) && AllZeroDigits(z)
    ensures Spellable(z, loc) && IntegerWords(z, loc) == ""
  {
    var gs := PrepareNumber(z);
    assert AllZeroDigits(Concat(gs)) by {
      var p := Pad(z);
      assert p == Zeros(|p| - |z|) + z;
      assert forall k :: 0 <= k < |p| ==> p[k] == '0';
    }
    ZeroGroups(gs);
    var ws := Lexicalize(gs, loc);
    forall i | 0 <= i < |ws|
      ensures ws[i] == ""
    {
      ValueZeroIff(gs[i]);
    }
    SilentPhrases(ws, |ws|, loc.letters[4]);
  }

  /** A number below one has no integer words: "0.5" and "00.5" read as
      " point 5", with nothing before the separator. */
  lemma NoWordsBeforePoint(z: string, f: string, loc: Locale)
    requires ValidTables(loc)
    requires z != "" && AllDigits(z) && AllZeroDigits(z)
    requires AllDigits(f) && !AllZeroDigits(f)
    ensures Admissible(z + "." + f, loc)
    ensures TrimTrailingZeros(f) != ""
    ensures Convert(z + "." + f, loc) == " point " + TrimTrailingZeros(f)
  {
    ReadingBelowOne(z, f);
    ZeroIntegerPart(z, loc);
    ConvertParts(z + "." + f, loc);
  }

  /** Twenty comes from the teens table, not from the tens and ones tables. */
  lemma TwentyFromTeens(loc: Locale)
    requires ValidTables(loc) && WordsNonEmpty(loc) && |loc.letters[4]| >= 1
    ensures Admissible("20", loc)
    ensures Convert("20", loc) == loc.letters[1][10] + loc.letters[4][0]
  {
    assert Pad("20") == "020";
    assert TinyNumToWord("020", loc) == loc.letters[1][10] by {
      ValueOfThree("020");
    }
    assert "20"[0] != '0';
    OneGroupConvert("20", loc);
  }

  /** One hundred is the hundreds word alone, with no trailing delimiter. */
  lemma HundredAlone(loc: Locale)
    requires ValidTables(loc) && WordsNonEmpty(loc) && |loc.letters[4]| >= 1
    ensures Admissible("100", loc)
    ensures Convert("100", loc) == loc.letters[3][1] + loc.letters[4][0]
  {
    assert Pad("100") == "100";
    assert TinyNumToWord("100", loc) == loc.letters[3][1] by {
      ValueOfThree("100");
    }
    assert "100"[0] != '0';
    OneGroupConvert("100", loc);
  }

  /** One thousand is the ones word for one with the thousands suffix; the
      zero group after it leaves nothing. */
  lemma ThousandCarriesSuffix(loc: Locale)
    requires ValidTables(loc) && WordsNonEmpty(loc) && |loc.letters[4]| >= 2
    ensures Admissible("1000", loc)
    ensures Convert("1000", loc) == loc.letters[0][1] + loc.letters[4][1]
  {
    var s := "1000";
    var w := loc.letters[0][1] + loc.letters[4][1];
    assert PrepareNumber(s) == ["001", "000"] by {
      assert AllDigits(s);
      assert Pad(s) == "001000";
      var p := Pad(s);
      assert p[..3] == "001" && p[3..] == "000";
      assert "000"[..3] == "000" && "000"[3..] == [];
    }
    var ws := Lexicalize(["001", "000"], loc);
    assert ws == [loc.letters[0][1], ""] by {
      ValueOfThree("001");
      ValueOfThree("000");
      assert TinyNumToWord("001", loc) == loc.letters[0][1];
      assert TinyNumToWord("000", loc) == "";
    }
    assert Spellable(s, loc) && IntegerWords(s, loc) == w by {
      assert Phrases(ws, 0, loc.letters[4]) == [];
      assert Phrases(ws, 1, loc.letters[4]) == [w];
    }
    DigitsConvert(s, loc);
  }
}
