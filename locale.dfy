/** A locale's vocabulary, as the converter reads it, and the joining of words. */
module LocaleData {

  /** The fields of a locale definition. `letters[0]` holds the ones words
      (indexed 0..9), `letters[1]` the words for 10..20, `letters[2]` the tens
      words (indexed by the tens digit), `letters[3]` the hundreds words
      (indexed by the hundreds digit) and `letters[4]` the scale suffixes
      (indexed by the position of a group counted from the right).
      `decimalSuffixes` is part of a locale but the converter never reads it. */
  datatype Locale = Locale(
    delimiter: string,
    zero: string,
    negative: string,
    letters: seq<seq<string>>,
    decimalSuffixes: seq<string>)

  /** The word tables hold every entry a 0..999 group can look up. */
  predicate ValidTables(loc: Locale) {
    && |loc.letters| >= 5
    && |loc.letters[0]| >= 10
    && |loc.letters[1]| >= 11
    && |loc.letters[2]| >= 10
    && |loc.letters[3]| >= 10
  }

  /** Every table entry that a non-zero group can produce is a non-empty word:
      ones 1..9, all eleven teens, tens 2..9 and hundreds 1..9. */
  predicate WordsNonEmpty(loc: Locale)
    requires ValidTables(loc)
  {
    && (forall i :: 1 <= i < 10 ==> loc.letters[0][i] != "")
    && (forall i :: 0 <= i < 11 ==> loc.letters[1][i] != "")
    && (forall i :: 2 <= i < 10 ==> loc.letters[2][i] != "")
    && (forall i :: 1 <= i < 10 ==> loc.letters[3][i] != "")
  }

  /** The words of `ws` separated by `d` (what `Array.prototype.join` does). */
  function Join(ws: seq<string>, d: string): string
  {
    if |ws| == 0 then ""
    else if |ws| == 1 then ws[0]
    else ws[0] + d + Join(ws[1..], d)
  }

  /** Joining one more word appends the delimiter and that word; a single
      word is joined to itself. */
  lemma {:induction false} JoinAppend(ws: seq<string>, w: string, d: string)
    ensures Join([w], d) == w
    ensures |ws| > 0 ==> Join(ws + [w], d) == Join(ws, d) + d + w
  {
    if |ws| > 1 {
      JoinAppend(ws[1..], w, d);
      assert (ws + [w])[1..] == ws[1..] + [w];
      assert ws[0] + d + (Join(ws[1..], d) + d + w) == ws[0] + d + Join(ws[1..], d) + d + w;
    } else if |ws| == 1 {
      assert (ws + [w])[1..] == [w];
    }
  }
}
