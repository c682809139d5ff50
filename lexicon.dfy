/** Group lexicalization: the words for one 0..999 group. */
module Lexicon {
  import opened DigitStrings
  import opened LocaleData
  import opened Segmentation

  /** The words for 0..99 as one list: nothing for 0, a ones word for 1..9,
      a teens word for 10..20 (20 included), and above 20 the tens word
      followed by the ones word when the ones digit is not zero. */
  function Below100Words(v: nat, loc: Locale): (ws: seq<string>)
    requires ValidTables(loc) && v < 100
    ensures |ws| <= 2 && (ws == [] <==> v == 0)
  {
    if v == 0 then []
    else if v < 10 then [loc.letters[0][v]]
    else if v <= 20 then [loc.letters[1][v - 10]]
    else [loc.letters[2][v / 10]] + (if v % 10 == 0 then [] else [loc.letters[0][v % 10]])
  }

  /** The words of a group: the hundreds word when there are hundreds, then
      the words for the remainder below one hundred. */
  function WordList(v: nat, loc: Locale): (ws: seq<string>)
    requires ValidTables(loc) && v < 1000
    ensures ws == [] <==> v == 0
  {
    (if v < 100 then [] else [loc.letters[3][v / 100]]) + Below100Words(v % 100, loc)
  }

  /** The phrase for one three-digit group; empty for the group "000". */
  function TinyNumToWord(num: string, loc: Locale): (phrase: string)
    requires ValidTables(loc) && IsGroup(num)
    ensures Value(num) == 0 ==> phrase == ""
  {
    var v := Value(num);
    var letters, delimiter := loc.letters, loc.delimiter;
    if v == 0 then ""
    else if v < 10 then letters[0][v]
    else if v <= 20 then letters[1][v - 10]
    else if v < 100 then
      var one := v % 10;
      var ten := v / 10;
      if one > 0 then letters[2][ten] + delimiter + letters[0][one] else letters[2][ten]
    else
      var one := v % 10;
      var hundreds := v / 100;
      var ten := (v % 100) / 10;
      var out := [letters[3][hundreds]];
      var secondPart := ten * 10 + one;
      if secondPart == 0 then
        Join(out, delimiter)
      else if secondPart < 10 then
        Join(out + [letters[0][secondPart]], delimiter)
      else if secondPart <= 20 then
        Join(out + [letters[1][secondPart - 10]], delimiter)
      else
        Join(out + [letters[2][ten]] + (if one > 0 then [letters[0][one]] else []), delimiter)
  }

  /** The phrase of a group is its word list joined with the delimiter: the
      hundreds branch spells its remainder exactly as the branches below one
      hundred do. */
  lemma SpelledAsWordList(num: string, loc: Locale)
    requires ValidTables(loc) && IsGroup(num)
    ensures TinyNumToWord(num, loc) == Join(WordList(Value(num), loc), loc.delimiter)
  {
    var v := Value(num);
    if v < 100 {
      BelowHundredSpelled(num, loc);
      WordListBelowHundred(v, loc);
    } else {
      HundredsSpelled(num, loc);
    }
  }

  lemma WordListBelowHundred(v: nat, loc: Locale)
    requires ValidTables(loc) && v < 100
    ensures WordList(v, loc) == Below100Words(v, loc)
  {
    assert v % 100 == v;
    assert [] + Below100Words(v, loc) == Below100Words(v, loc);
  }

  lemma BelowHundredSpelled(num: string, loc: Locale)
    requires ValidTables(loc) && IsGroup(num) && Value(num) < 100
    ensures TinyNumToWord(num, loc) == Join(Below100Words(Value(num), loc), loc.delimiter)
  {
  }

  lemma HundredsSpelled(num: string, loc: Locale)
    requires ValidTables(loc) && IsGroup(num) && Value(num) >= 100
    ensures TinyNumToWord(num, loc) == Join(WordList(Value(num), loc), loc.delimiter)
  {
    var v := Value(num);
    var one, ten := v % 10, (v % 100) / 10;
    var secondPart := ten * 10 + one;
    RemainderDigits(v);
    var out := [loc.letters[3][v / 100]];
    var tail := Below100Words(secondPart, loc);
    assert WordList(v, loc) == out + tail;
    if secondPart > 20 {
      var opt := if one > 0 then [loc.letters[0][one]] else [];
      assert tail == [loc.letters[2][ten]] + opt;
      assert out + [loc.letters[2][ten]] + opt == out + tail;
    }
  }

  /** The tens and ones digits of `v` spell its remainder below one hundred. */
  lemma RemainderDigits(v: nat)
    ensures (v % 100) / 10 * 10 + v % 10 == v % 100
    ensures (v % 100) % 10 == v % 10
  {
  }

  /** With non-empty table words, a group has an empty phrase exactly when
      its value is zero. */
  lemma SilentIffZero(num: string, loc: Locale)
    requires ValidTables(loc) && WordsNonEmpty(loc) && IsGroup(num)
    ensures TinyNumToWord(num, loc) == "" <==> Value(num) == 0
  {
  }

  /** The group spelling the number `v` below one thousand. */
  function ToGroup(v: nat): (g: string)
    requires v < 1000
    ensures IsGroup(g) && Value(g) == v
  {
    var g := [DigitChar(v / 100), DigitChar(v / 10 % 10), DigitChar(v % 10)];
    ValueOfThree(g);
    g
  }

  /** A group with hundreds is the hundreds word alone when the remainder is
      zero, and otherwise the hundreds word, the delimiter and exactly the
      phrase the remainder has as a group of its own. */
  lemma HundredsThenRemainder(num: string, loc: Locale)
    requires ValidTables(loc) && IsGroup(num) && Value(num) >= 100
    ensures Value(num) % 100 == 0 ==>
      TinyNumToWord(num, loc) == loc.letters[3][Value(num) / 100]
    ensures Value(num) % 100 != 0 ==>
      TinyNumToWord(num, loc) ==
        loc.letters[3][Value(num) / 100] + loc.delimiter + TinyNumToWord(ToGroup(Value(num) % 100), loc)
  {
    var v := Value(num);
    SpelledAsWordList(num, loc);
    SpelledAsWordList(ToGroup(v % 100), loc);
    var rest := Below100Words(v % 100, loc);
    assert WordList(v, loc) == [loc.letters[3][v / 100]] + rest;
    assert WordList(v % 100, loc) == rest;
    assert ([loc.letters[3][v / 100]] + rest)[1..] == rest;
  }
}
