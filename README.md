# num-to-locale-string in Dafny

This project models the number-to-words converter of `num-to-locale-string`
(`src/index.ts`). A sanitised numeric string is turned into words in a
locale:

- the sign is read;
- the integer part is cut into three-digit groups;
- every group is spelled from the locale's word tables (`tinyNumToWord`);
- every group that has words takes the scale suffix for its position;
- the phrases are joined with the locale's delimiter;
- a fraction whose trailing zeros have been removed is appended verbatim
  after the fixed word " point ".

Modules:

- `DigitStrings` (`digits.dfy`): digit characters, the value of a digit
  string (what `parseInt(s, 10)` gives for digits), and runs of zeros.
- `LocaleData` (`locale.dfy`): the `Locale` record and `Join`.
  - `ValidTables` says which table entries a group can look up.
  - `WordsNonEmpty` says that those entries are real words.
  - `Join` is `Array.prototype.join`.
- `Segmentation` (`segmentation.dfy`): `prepareNumber`. It pads with zeros to
  a multiple of three and splits into groups. The groups, read in base
  1000, are proved to denote the same number, and segmenting is proved
  idempotent.
- `Lexicon` (`lexicon.dfy`): `tinyNumToWord`, written branch for branch as
  in the source.
  - It is proved equal to a reference word list, `WordList`: hundreds word,
    then tens, teens or ones words.
  - For a locale whose table words are non-empty, it is proved silent
    exactly on the group `000`.
  - Its hundreds branch is proved to spell the remainder exactly as a group
    of its own.
- `Converter` (`converter.dfy`): `numberToString` as the imperative method
  `NumberToString`, proved equal to the specification function `Convert`.
  - The group loop is the method `GroupPhrases`, whose loop invariant ties
    the collected phrases to the function `Phrases`.
  - The reading of the input is modelled digit by digit: sanitising,
    `parseFloat`'s sign class, `indexOf`, and trimming the fraction's
    trailing zeros.
- `ConversionLaws` (`laws.dfy`): laws of the whole conversion.
  - Zeros, with or without a '-' and a fraction of zeros, and text without
    digits read as the zero word.
  - A negative number is the negative word followed by the words of the
    same string with every '-' removed.
  - A fraction adds " point " and its digits without trailing zeros, and
    nothing when only zeros remain.
  - A leading zero changes nothing in the words of a digit string with a
    non-zero digit.
  - A number below one has no integer words.
  - The worked inputs 20, 100 and 1000 are spelled out.

`parseFloat` is modelled by what the converter uses from it, the class of
the parsed value: not a number, zero, positive or negative. On a sanitised
string (digits, '.' and '-' only), `parseFloat` reads an optional '-',
digits, and optionally a '.' followed by digits. The value is not a number
when it reads no digit. It is zero when every digit it reads is '0'. It is
negative after a leading '-'. `ParseFloatSign` computes exactly this from
the digits read (`ReadDigits`).

The conversion is specified on the inputs where the source produces words
from its tables (`Admissible`):

- those read as not a number or as zero;
- those whose integer part (after the sign is removed, before the first
  '.') is a non-empty digit string every spoken group of which finds its
  scale suffix in `letters[4]` (`Spellable`, `ScalesFit`).

The fraction may be any text; it is copied as it is, as in the source.

## Model

| member | source | states |
|---|---|---|
| DigitStrings.Value | src/index.ts:64-64 | the value `parseInt` gives a digit string, below ten to the power of its length |
| DigitStrings.ValueZeroIff | src/index.ts:60-62 | a group parses to 0 exactly when all its digits are '0' |
| DigitStrings.ValueAppend | src/index.ts:48-51 | prefixing digits adds the prefix's value times a power of ten |
| DigitStrings.LeadingZerosValue | src/index.ts:48-51 | the zeros `prepareNumber` prefixes do not change the value |
| DigitStrings.ValueOfThree | src/index.ts:80-82 | a group's value is 100 × hundreds digit + 10 × tens digit + ones digit |
| Segmentation.Pad | src/index.ts:48-52 | the padded string has length a multiple of three, is less than three longer, and is the input behind that many '0's |
| Segmentation.Chunk | src/index.ts:54-54 | the pieces are all of length three, there are length/3 of them, and written one after another they give back the string |
| Segmentation.PrepareNumber | src/index.ts:45-55 | the empty string gives one empty piece; otherwise ⌈n/3⌉ three-digit groups whose concatenation is the padded input |
| Segmentation.SegmentationKeepsValue | src/index.ts:45-55 | the groups read in base 1000, each weighted by the suffix position it is looked up at, denote the value of the digits |
| Segmentation.SegmentationIdempotent | src/index.ts:45-55 | segmenting the concatenated groups again gives the same groups |
| LocaleData.JoinAppend | src/index.ts:151-158 | `join` of a single word is that word, and joining one more word appends the delimiter and that word |
| Lexicon.Below100Words | src/index.ts:66-78 | at most two words, and none exactly for 0 |
| Lexicon.WordList | src/index.ts:80-100 | no words exactly for 0 |
| Lexicon.TinyNumToWord | src/index.ts:57-103 | the phrase of the group 000 is empty; the definition follows the source branch for branch, and its full meaning is stated by SpelledAsWordList and HundredsThenRemainder |
| Lexicon.SpelledAsWordList | src/index.ts:57-103 | `tinyNumToWord` is the reference word list (hundreds word, then the ones, teens or tens-and-ones words of the remainder) joined with the delimiter |
| Lexicon.HundredsSpelled | src/index.ts:80-102 | from one hundred on, the hundreds word then the remainder's reference words, joined |
| Lexicon.SilentIffZero | src/index.ts:57-103 | with non-empty table words, the phrase of a group is empty exactly when the group is 000 |
| Lexicon.HundredsThenRemainder | src/index.ts:84-102 | a group with hundreds is the hundreds word alone when the remainder is zero, otherwise the hundreds word, the delimiter and the phrase of the remainder as a group of its own |
| Converter.Sanitize | src/index.ts:110-110 | only digits, '.' and '-' are left, and a string of those alone is unchanged |
| Converter.SanitizeAppend | src/index.ts:110-110 | sanitising works piece by piece: the sanitised concatenation is the concatenation of the sanitised pieces |
| Converter.SanitizeChar | src/index.ts:110-110 | a single character is kept exactly when it is a digit, '.' or '-', and dropped otherwise; with `SanitizeAppend` this is: the allowed characters, in their order, and nothing else |
| Converter.StripMinus | src/index.ts:125-125 | no '-' is left, and a string without '-' is unchanged |
| Converter.StripMinusAppend | src/index.ts:125-125 | removing '-' works piece by piece: the result for a concatenation is the concatenation of the results |
| Converter.StripMinusChar | src/index.ts:125-125 | a single character is removed exactly when it is '-'; with `StripMinusAppend` this is: every other character, in its order |
| Converter.LeadingDigits | src/index.ts:113-113 | the length of the longest digit prefix: digits up to it, a non-digit at it |
| Converter.ReadDigits | src/index.ts:113-113 | what `parseFloat` reads consists of digits only |
| Converter.ParseFloatSign | src/index.ts:113-123 | text without a digit is not a number, and only a string that starts with '-' is negative; ReadingOfDigits, ReadingWithPoint and StrippedReadsPositive state its other classes |
| Converter.IndexOf | src/index.ts:130-130 | the first index of the character, or -1 exactly when it does not occur |
| Converter.SplitAtPoint | src/index.ts:128-134 | without a '.', the whole string and an empty fraction; otherwise the text before and after the first '.', which joined with '.' give back the string |
| Converter.TrimTrailingZeros | src/index.ts:147-147 | the input is the result followed by zeros, and the result does not end in '0' |
| Converter.TrimmedEmptyIffZeros | src/index.ts:147-148 | trimming leaves nothing exactly when the fraction is all zeros |
| Converter.FractionWords | src/index.ts:146-156 | the fraction adds nothing exactly when it is all zeros (or empty), and otherwise " point " and its digits without the trailing zeros |
| Converter.Phrases | src/index.ts:139-144 | at most one phrase per group, and no phrase is empty; PhrasesInOrder states which phrase belongs to which group |
| Converter.PhrasesInOrder | src/index.ts:139-144 | one phrase per group with words; group j's phrase is its words followed by suffix n-(j+1), at the place given by the groups with words before it |
| Converter.SilentLeadingGroup | src/index.ts:139-144 | a leading group without words changes neither whether the suffixes suffice nor the phrases |
| Converter.Convert | src/index.ts:105-159 | text that is not a number or is zero gives the zero word, and a negative number's words start with the negative word; NumberToString and the laws below state the rest |
| Converter.GroupPhrases | src/index.ts:137-144 | the loop collects exactly the phrases of the groups with words, each with its scale suffix, most significant first |
| Converter.NumberToString | src/index.ts:105-159 | the method's result equals the specification `Convert` of the sanitised input on every admissible input |
| ConversionLaws.ReadingOfDigits | src/index.ts:113-134 | a digit string is read as itself: no point, not a number when empty, zero when all '0', positive otherwise |
| ConversionLaws.ReadingWithPoint | src/index.ts:113-134 | `i.f` with a non-zero digit in `i` is positive, keeps every '-', and splits into `i` and `f` |
| ConversionLaws.NoDigitsReadAsZero | src/index.ts:113-117 | text without digits is not a number and gives the zero word |
| ConversionLaws.ZeroDigitsReadAsZero | src/index.ts:113-121 | a string whose digits read are all '0' is zero with or without a '-' in front, and both give the zero word |
| ConversionLaws.ZerosReadAsZero | src/index.ts:113-121 | a non-empty run of zeros, with or without a '-' in front, gives the zero word |
| ConversionLaws.DigitsWithPointRead | src/index.ts:113-113 | from `i.f` with digit strings `i` and `f`, `parseFloat` reads the digits of both |
| ConversionLaws.ZerosWithPointReadAsZero | src/index.ts:113-121 | zeros, a point and zeros, with or without a '-' in front, give the zero word |
| ConversionLaws.ZeroWithZeroFraction | src/index.ts:119-121 | "0.00" is zero and gives the zero word |
| ConversionLaws.NegativeZero | src/index.ts:119-126 | "-0" is zero, not negative, and gives the zero word |
| ConversionLaws.DigitsConvert | src/index.ts:128-158 | a positive digit string is converted exactly when it is spellable, to its joined group phrases |
| ConversionLaws.LeadingDigitsAppend | src/index.ts:113-113 | digits in front of a string lengthen its digit prefix by their number |
| ConversionLaws.StripKeepsDigitPrefix | src/index.ts:125-125 | removing every '-' keeps the digit prefix in front and can only lengthen it |
| ConversionLaws.ReadDigitsAfterStrip | src/index.ts:113-125 | the digits `parseFloat` reads from a string are a prefix of those it reads after every '-' is removed |
| ConversionLaws.StrippedReadsPositive | src/index.ts:119-125 | a negative number with every '-' removed reads as positive |
| ConversionLaws.NegationLaw | src/index.ts:123-158 | every negative input, with every '-' removed, is positive; both are converted on the same inputs, and the negative one gives the negative word followed by the words of the stripped one |
| ConversionLaws.FractionLaw | src/index.ts:146-158 | `i.f` gives the words of `i` followed by " point " and `f` without trailing zeros, or the words of `i` alone when `f` is all zeros |
| ConversionLaws.TrimRecoversDigits | src/index.ts:147-147 | trimming undoes appending zeros to a string that does not end in '0' |
| ConversionLaws.TrailingZerosDropped | src/index.ts:146-158 | `i.r000` reads as `i.r`, and as `i` alone when `r` is empty |
| ConversionLaws.GroupsWithLeadingZero | src/index.ts:45-55 | one more leading zero adds a group 000 in front exactly when the length was a multiple of three, else the groups stay |
| ConversionLaws.SilentFrontGroup | src/index.ts:139-141 | a leading group 000 adds one empty phrase in front |
| ConversionLaws.LeadingZeroLaw | src/index.ts:136-158 | a leading zero changes neither the domain nor the words of a positive integer |
| ConversionLaws.OneGroup | src/index.ts:136-144 | a number of at most three digits is the single padded group; its words, when it has any, take the first suffix |
| ConversionLaws.OneGroupConvert | src/index.ts:136-158 | a positive number of at most three digits reads as its group's phrase followed by the first suffix |
| ConversionLaws.ReadingBelowOne | src/index.ts:113-134 | `z.f`, with `z` a run of zeros and a non-zero digit in `f`, is positive with integer part `z` and fraction `f` |
| ConversionLaws.ZeroGroups | src/index.ts:45-55 | the groups cut from a run of zeros are all runs of zeros |
| ConversionLaws.SilentPhrases | src/index.ts:139-144 | groups without words give no phrase at all |
| ConversionLaws.ZeroIntegerPart | src/index.ts:136-144 | an integer part made of zeros only is spellable and has no words |
| ConversionLaws.NoWordsBeforePoint | src/index.ts:146-158 | `z.f` with `z` a run of zeros reads as " point " and `f` without trailing zeros, with no integer words and no zero word |
| ConversionLaws.TwentyFromTeens | src/index.ts:70-72 | 20 is spoken with the teens table's entry 10 plus the first suffix |
| ConversionLaws.HundredAlone | src/index.ts:84-89 | 100 is the hundreds word for 1 alone plus the first suffix, with no delimiter |
| ConversionLaws.ThousandCarriesSuffix | src/index.ts:139-144 | 1000 is the ones word for 1 with the second suffix; the group 000 adds nothing |

## Left out

- `loadLocale` and the `Locales` enumeration (`src/index.ts:1-9`, `24-43`): the locale is a parameter, so the asynchronous import of the JSON files and the unsupported-locale error are not modelled. The contents of the locale files are not part of this model.
- `decimalSuffixes` is part of the `Locale` record but is never read by the conversion, so nothing is stated about it.
- `input.toString()` of a JavaScript number: the model starts from the string. For a number input, the exponent notation that `toString` can produce (`1e+21`) is not modelled.
- Converter.ParseFloatSign: floating-point precision is not modelled. A digit string too long to be represented is classed by its digits. `parseFloat` could underflow a very small fraction to 0, where the model classes it as positive.
- Converter.NumberToString: the contract covers the inputs `Admissible` accepts. The other inputs are outside the specification:
  - an empty integer part (".5", "-.5");
  - a '-' left inside a non-negative input ("5-3");
  - a group with words whose scale suffix is beyond `letters[4]`.
  On those inputs the source still produces text: `parseInt` reads a group only up to its first non-digit, so "5-3" gives `letters[0][5]` followed by `letters[4][0]`, and a table entry that does not exist joins as the empty string, so ".5" gives the delimiter, `letters[4][0]` and " point 5". The model leaves these inputs out because their integer part is not a non-empty digit string, and it does not model `parseInt` on text that is not a group of three digits.
- The loop of `numberToString` (`src/index.ts:137-144`) is the separate method `GroupPhrases`, called from `NumberToString`. The step order and the branches are those of the source.
- ConversionLaws.TwentyFromTeens, ConversionLaws.HundredAlone and ConversionLaws.ThousandCarriesSuffix: these require `WordsNonEmpty`, a locale whose table words are non-empty. With an empty word, the group would be silent and would lose its suffix.
- The worked input "12.3400" is covered by ConversionLaws.TrailingZerosDropped for every integer part and fraction, not as a separate literal example.
