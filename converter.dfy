/** Top-level assembly: sign, integer and fraction parts, groups, scale
    suffixes and the joined result. */
module Converter {
  import opened DigitStrings
  import opened LocaleData
  import opened Segmentation
  import opened Lexicon

  // ---------------------------------------------------------------------
  // Reading the input string

  /** The characters that survive sanitising: digits, '.' and '-'. */
  predicate Allowed(c: char) {
    IsDigit(c) || c == '.' || c == '-'
  }

  /** Drops every character other than a digit, '.' or '-'. */
  function Sanitize(s: string): (r: string)
    ensures |r| <= |s|
    ensures forall i :: 0 <= i < |r| ==> Allowed(r[i])
    ensures (forall i :: 0 <= i < |s| ==> Allowed(s[i])) ==> r == s
  {
    if |s| == 0 then ""
    else if Allowed(s[0]) then
      assert s == [s[0]] + s[1..];
      [s[0]] + Sanitize(s[1..])
    else Sanitize(s[1..])
  }

  /** Removes every '-'. */
  function StripMinus(s: string): (r: string)
    ensures |r| <= |s|
    ensures forall i :: 0 <= i < |r| ==> r[i] != '-'
    ensures (forall i :: 0 <= i < |s| ==> s[i] != '-') ==> r == s
  {
    if |s| == 0 then ""
    else if s[0] == '-' then StripMinus(s[1..])
    else
      assert s == [s[0]] + s[1..];
      [s[0]] + StripMinus(s[1..])
  }

  /** Sanitising works character by character: the characters kept from a
      concatenation are those kept from each part, in order. */
  lemma {:induction false} SanitizeAppend(a: string, b: string)
    ensures Sanitize(a + b) == Sanitize(a) + Sanitize(b)
  {
    if |a| > 0 {
      SanitizeAppend(a[1..], b);
      assert (a + b)[1..] == a[1..] + b;
    } else {
      assert a + b == b;
    }
  }

  /** One character is kept exactly when it is a digit, '.' or '-'; with
      `SanitizeAppend` this fixes the result for every string. */
  lemma SanitizeChar(c: char)
    ensures Sanitize([c]) == if Allowed(c) then [c] else []
  {
  }

  /** Removing '-' works character by character: the characters kept from a
      concatenation are those kept from each part, in order. */
  lemma {:induction false} StripMinusAppend(a: string, b: string)
    ensures StripMinus(a + b) == StripMinus(a) + StripMinus(b)
  {
    if |a| > 0 {
      StripMinusAppend(a[1..], b);
      assert (a + b)[1..] == a[1..] + b;
    } else {
      assert a + b == b;
    }
  }

  /** One character is kept exactly when it is not '-'. */
  lemma StripMinusChar(c: char)
    ensures StripMinus([c]) == if c == '-' then [] else [c]
  {
  }

  /** The length of the longest prefix of `s` made of digits. */
  function LeadingDigits(s: string): (k: nat)
    ensures k <= |s| && AllDigits(s[..k])
    ensures k < |s| ==> !IsDigit(s[k])
  {
    if |s| == 0 || !IsDigit(s[0]) then 0
    else
      var k := 1 + LeadingDigits(s[1..]);
      assert s[..k] == [s[0]] + s[1..][..k - 1];
      k
  }

  /** The digits a decimal reading consumes from an unsigned string: the
      leading digits and, after a '.', the digits that follow it. */
  function ReadDigits(s: string): (digits: string)
    ensures AllDigits(digits)
  {
    var k := LeadingDigits(s);
    var rest := s[k..];
    if |rest| > 0 && rest[0] == '.' then
      var frac := rest[1..][..LeadingDigits(rest[1..])];
      s[..k] + frac
    else s[..k]
  }

  /** What floating-point parsing of a sanitised string tells the converter. */
  datatype FloatSign = NotANumber | ZeroValue | PositiveValue | NegativeValue

  /** The sign class of the number a sanitised string begins with: not a
      number when no digit is read, zero when every digit read is '0'
      (also after a '-'), negative after a leading '-' otherwise. */
  function ParseFloatSign(s: string): (sign: FloatSign)
    ensures sign == NegativeValue ==> |s| > 0 && s[0] == '-'
    ensures (forall i :: 0 <= i < |s| ==> !IsDigit(s[i])) ==> sign == NotANumber
  {
    var negative := |s| > 0 && s[0] == '-';
    var digits := ReadDigits(if negative then s[1..] else s);
    if digits == "" then NotANumber
    else if AllZeroDigits(digits) then ZeroValue
    else if negative then NegativeValue
    else PositiveValue
  }

  /** The index of the first `c` in `s`, or -1 when there is none. */
  function IndexOf(s: string, c: char): (i: int)
    ensures -1 <= i < |s|
    ensures i == -1 ==> forall k :: 0 <= k < |s| ==> s[k] != c
    ensures 0 <= i ==> s[i] == c && forall k :: 0 <= k < i ==> s[k] != c
  {
    if |s| == 0 then -1
    else if s[0] == c then 0
    else
      var j := IndexOf(s[1..], c);
      if j == -1 then -1 else j + 1
  }

  /** The text before and after the first '.'; no '.' leaves the fraction empty. */
  function SplitAtPoint(s: string): (parts: (string, string))
    ensures '.' !in s ==> parts == (s, "")
    ensures '.' in s ==> s == parts.0 + "." + parts.1 && '.' !in parts.0
  {
    var pointIndex := IndexOf(s, '.');
    if pointIndex > -1 then (s[..pointIndex], s[pointIndex + 1..]) else (s, "")
  }

  /** Removes the trailing run of '0' characters. */
  function TrimTrailingZeros(s: string): (r: string)
    ensures |r| <= |s| && s == r + Zeros(|s| - |r|)
    ensures r == "" || r[|r| - 1] != '0'
  {
    if |s| > 0 && s[|s| - 1] == '0' then
      var r := TrimTrailingZeros(s[..|s| - 1]);
      assert Zeros(|s| - |r|) == Zeros(|s| - 1 - |r|) + "0";
      r
    else
      assert s + Zeros(0) == s;
      s
  }

  /** The working string once the sign is known: a negative number loses
      every '-'. */
  function UnsignedPart(s: string): string
  {
    if ParseFloatSign(s) == NegativeValue then StripMinus(s) else s
  }

  // ---------------------------------------------------------------------
  // Group phrases

  /** The phrase of every group, in order (group `k` spelled by `TinyNumToWord`). */
  function Lexicalize(gs: seq<string>, loc: Locale): (ws: seq<string>)
    requires ValidTables(loc) && AllGroups(gs)
    ensures |ws| == |gs|
    ensures forall k :: 0 <= k < |gs| ==> ws[k] == TinyNumToWord(gs[k], loc)
  {
    seq(|gs|, k requires 0 <= k < |gs| => TinyNumToWord(gs[k], loc))
  }

  /** Every group that has words finds its scale suffix: group `j` of `n`
      looks up entry `n - (j + 1)` of `scales`. */
  predicate ScalesFit(ws: seq<string>, scales: seq<string>) {
    forall j :: 0 <= j < |ws| && ws[j] != "" ==> |ws| - (j + 1) < |scales|
  }

  /** The phrases of the first `k` groups, whose words are `ws`, most
      significant first: the words of a group followed directly by its scale
      suffix; a group without words contributes nothing, not even its suffix. */
  function Phrases(ws: seq<string>, k: nat, scales: seq<string>): (ps: seq<string>)
    requires ScalesFit(ws, scales) && k <= |ws|
    ensures |ps| <= k
    ensures forall p :: 0 <= p < |ps| ==> ps[p] != ""
  {
    if k == 0 then []
    else
      Phrases(ws, k - 1, scales)
        + (if ws[k - 1] == "" then [] else [ws[k - 1] + scales[|ws| - k]])
  }

  /** How many of the first `k` groups have words. */
  function Spoken(ws: seq<string>, k: nat): nat
    requires k <= |ws|
  {
    if k == 0 then 0 else Spoken(ws, k - 1) + (if ws[k - 1] == "" then 0 else 1)
  }

  /** The phrase list holds one phrase per group with words, and group `j`
      with words is phrase number `Spoken(ws, j)`: its words followed by
      scale suffix `n - (j + 1)`. So the phrases keep the order of the groups,
      and groups without words leave no trace. */
  lemma {:induction false} PhrasesInOrder(ws: seq<string>, k: nat, j: nat, scales: seq<string>)
    requires ScalesFit(ws, scales) && k <= |ws|
    ensures |Phrases(ws, k, scales)| == Spoken(ws, k)
    ensures j < k && ws[j] != "" ==>
      && Spoken(ws, j) < |Phrases(ws, k, scales)|
      && Phrases(ws, k, scales)[Spoken(ws, j)] == ws[j] + scales[|ws| - (j + 1)]
  {
    if k > 0 {
      PhrasesInOrder(ws, k - 1, j, scales);
    }
  }

  /** A leading group without words changes nothing: neither whether the
      scale suffixes suffice nor the phrase list. */
  lemma {:induction false} SilentLeadingGroup(ws: seq<string>, k: nat, scales: seq<string>)
    requires k <= |ws|
    ensures ScalesFit([""] + ws, scales) <==> ScalesFit(ws, scales)
    ensures ScalesFit(ws, scales) ==> Phrases([""] + ws, k + 1, scales) == Phrases(ws, k, scales)
  {
    var long := [""] + ws;
    if ScalesFit(ws, scales) {
      forall j | 0 <= j < |long| && long[j] != ""
        ensures |long| - (j + 1) < |scales|
      {
        assert long[j] == ws[j - 1];
      }
    }
    if ScalesFit(long, scales) {
      forall j | 0 <= j < |ws| && ws[j] != ""
        ensures |ws| - (j + 1) < |scales|
      {
        assert long[j + 1] == ws[j];
      }
    }
    if ScalesFit(ws, scales) && k > 0 {
      SilentLeadingGroup(ws, k - 1, scales);
      assert long[k] == ws[k - 1];
    }
  }

  // ---------------------------------------------------------------------
  // The conversion

  /** An integer part the converter can spell: a non-empty digit string
      whose groups all find their scale suffix. */
  predicate Spellable(integerPart: string, loc: Locale)
    requires ValidTables(loc)
  {
    && integerPart != ""
    && AllDigits(integerPart)
    && ScalesFit(Lexicalize(PrepareNumber(integerPart), loc), loc.letters[4])
  }

  /** The phrases of the integer part's groups joined with the delimiter. */
  function IntegerWords(integerPart: string, loc: Locale): string
    requires ValidTables(loc) && Spellable(integerPart, loc)
  {
    var ws := Lexicalize(PrepareNumber(integerPart), loc);
    Join(Phrases(ws, |ws|, loc.letters[4]), loc.delimiter)
  }

  /** Trimming leaves nothing exactly when the string is all zeros. */
  lemma TrimmedEmptyIffZeros(s: string)
    ensures TrimTrailingZeros(s) == "" <==> AllZeroDigits(s)
  {
    if TrimTrailingZeros(s) == "" {
      assert s == Zeros(|s|);
    }
  }

  /** What the fraction adds: " point " and its digits without the trailing
      zeros, or nothing when no digit is left. */
  function FractionWords(decimalPart: string): (fraction: string)
    ensures fraction == "" <==> AllZeroDigits(decimalPart)
    ensures fraction != "" ==> fraction == " point " + TrimTrailingZeros(decimalPart)
  {
    TrimmedEmptyIffZeros(decimalPart);
    var trimmed := TrimTrailingZeros(decimalPart);
    if decimalPart != "" && trimmed != "" then " point " + trimmed else ""
  }

  /** The inputs the conversion is defined on: those read as not a number or
      as zero, and those whose integer part (after the sign is removed and
      before the first '.') is spellable. */
  predicate Admissible(s: string, loc: Locale)
    requires ValidTables(loc)
  {
    var sign := ParseFloatSign(s);
    sign == NotANumber || sign == ZeroValue || Spellable(SplitAtPoint(UnsignedPart(s)).0, loc)
  }

  /** The words for a sanitised input string. */
  function Convert(s: string, loc: Locale): (words: string)
    requires ValidTables(loc) && Admissible(s, loc)
    ensures ParseFloatSign(s) == NotANumber || ParseFloatSign(s) == ZeroValue ==> words == loc.zero
    ensures ParseFloatSign(s) == NegativeValue ==>
      |loc.negative| <= |words| && words[..|loc.negative|] == loc.negative
  {
    var sign := ParseFloatSign(s);
    if sign == NotANumber || sign == ZeroValue then loc.zero
    else
      var (integerPart, decimalPart) := SplitAtPoint(UnsignedPart(s));
      var prefix := if sign == NegativeValue then loc.negative else "";
      prefix + IntegerWords(integerPart, loc) + FractionWords(decimalPart)
  }

  /** A number's words: sign, integer words, fraction. */
  lemma ConvertParts(s: string, loc: Locale)
    requires ValidTables(loc) && Admissible(s, loc)
    requires ParseFloatSign(s) != NotANumber && ParseFloatSign(s) != ZeroValue
    ensures Spellable(SplitAtPoint(UnsignedPart(s)).0, loc)
    ensures Convert(s, loc) ==
      (if ParseFloatSign(s) == NegativeValue then loc.negative else "")
        + IntegerWords(SplitAtPoint(UnsignedPart(s)).0, loc)
        + FractionWords(SplitAtPoint(UnsignedPart(s)).1)
  {
  }

  /** The two ways a fraction can end: with digits left after trimming, it
      adds " point " and them; otherwise it adds nothing. */
  lemma FractionCases(decimalPart: string)
    ensures decimalPart != "" && |TrimTrailingZeros(decimalPart)| > 0 ==>
      FractionWords(decimalPart) == " point " + TrimTrailingZeros(decimalPart)
    ensures decimalPart == "" || |TrimTrailingZeros(decimalPart)| == 0 ==>
      FractionWords(decimalPart) == ""
  {
  }

  /** The collected phrases of a spellable integer part, joined, are its
      integer words. */
  lemma CollectedWords(integerPart: string, loc: Locale, out: seq<string>)
    requires ValidTables(loc) && Spellable(integerPart, loc)
    requires out == Phrases(Lexicalize(PrepareNumber(integerPart), loc), |PrepareNumber(integerPart)|, loc.letters[4])
    ensures Join(out, loc.delimiter) == IntegerWords(integerPart, loc)
  {
  }

  /** Regroups a concatenation; kept as a lemma of its own so that callers
      do not have to re-derive it from the sequence axioms. */
  lemma AppendAssoc(a: string, b: string, c: string)
    ensures a + b + c == a + (b + c)
  {
  }

  /** The phrases of the groups, collected most significant first: each group
      with words gets its scale suffix appended, the others are skipped. */
  method GroupPhrases(slicedNumber: seq<string>, loc: Locale) returns (out: seq<string>)
    requires ValidTables(loc) && AllGroups(slicedNumber)
    requires ScalesFit(Lexicalize(slicedNumber, loc), loc.letters[4])
    ensures out == Phrases(Lexicalize(slicedNumber, loc), |slicedNumber|, loc.letters[4])
  {
    ghost var ws := Lexicalize(slicedNumber, loc);
    var n := |slicedNumber|;
    out := [];
    for i := 0 to n
      invariant out == Phrases(ws, i, loc.letters[4])
    {
      var converted := TinyNumToWord(slicedNumber[i], loc);
      assert converted == ws[i];
      if converted != "" {
        out := out + [converted + loc.letters[4][n - (i + 1)]];
      }
    }
  }

  /** Converts `input` to words in the locale `loc`, step by step. */
  method NumberToString(input: string, loc: Locale) returns (r: string)
    requires ValidTables(loc) && Admissible(Sanitize(input), loc)
    ensures r == Convert(Sanitize(input), loc)
  {
    var s := Sanitize(input);
    ghost var sanitized := s;
    var isNegative := false;
    var sign := ParseFloatSign(s);
    if sign == NotANumber {
      return loc.zero;
    }
    if sign == ZeroValue {
      return loc.zero;
    }
    if sign == NegativeValue {
      isNegative := true;
      s := StripMinus(s);
    }
    assert s == UnsignedPart(sanitized);

    var decimalPart := "";
    var integerPart := s;
    var pointIndex := IndexOf(s, '.');
    if pointIndex > -1 {
      integerPart := s[..pointIndex];
      decimalPart := s[pointIndex + 1..];
    }
    assert (integerPart, decimalPart) == SplitAtPoint(s);

    var prefix := if isNegative then loc.negative else "";
    ghost var fraction := FractionWords(decimalPart);
    ghost var expected := prefix + IntegerWords(integerPart, loc) + fraction;
    assert Convert(sanitized, loc) == expected by {
      ConvertParts(sanitized, loc);
    }

    var slicedNumber := PrepareNumber(integerPart);
    var out := GroupPhrases(slicedNumber, loc);
    ghost var words := Join(out, loc.delimiter);
    CollectedWords(integerPart, loc, out);

    FractionCases(decimalPart);
    if decimalPart != "" {
      decimalPart := TrimTrailingZeros(decimalPart);
      if |decimalPart| > 0 {
        AppendAssoc(prefix + words, " point ", decimalPart);
        return prefix + Join(out, loc.delimiter) + " point " + decimalPart;
      }
    }
    // Dropping the empty fraction is stated, not left to the solver to find.
    assert prefix + words + "" == prefix + words;
    return prefix + Join(out, loc.delimiter);
  }
}
