/**
 * The public conversions of `Pinyin` as values: what `SplitWords`, `Convert`,
 * `Name`, `Permalink`, `Abbr` and `Phrase` return for a given loader, and
 * what can be said about it.
 */
module Facade {
  import opened Text
  import opened Tones
  import opened Dictionaries
  import opened Words

  /** The three output options. */
  const NONE: string := "none"
  const ASCII: string := "ascii"
  const UNICODE: string := "unicode"

  /** The delimiters `Permalink` accepts, and the message it throws otherwise. */
  const PermalinkDelimiters: seq<string> := ["_", "-", ".", ""]
  const DelimiterMessage: string := "Delimiter must be one of: '_', '-', '.', ''"

  /**
   * What `SplitWords(pinyin, option)` returns: the pieces of the split, and
   * outside `UNICODE` mode each of them overwritten with the formatted whole
   * input (tone digits only for `ASCII`).
   */
  function SplitResult(t: CharTables, pinyin: string, option: string): seq<string> {
    var ws := Tokens(WordClass(t), pinyin);
    if option == UNICODE then ws else seq(|ws|, _ => Formatted(pinyin, option == ASCII))
  }

  /** What `Convert(str, option)` returns with the loader `l`. */
  function Converted(t: CharTables, l: DictLoader, s: string, option: string): seq<string> {
    SplitResult(t, Romanized(t, l, s, false), option)
  }

  /** What `Name(str, option)` returns with the loader `l`. */
  function Named(t: CharTables, l: DictLoader, s: string, option: string): seq<string> {
    SplitResult(t, Romanized(t, l, s, true), option)
  }

  /** What `Permalink(str, delimiter)` returns, or the `ArgumentException` it throws. */
  function PermalinkOf(t: CharTables, l: DictLoader, s: string, delimiter: string): Result<string> {
    if delimiter !in PermalinkDelimiters then Err(DelimiterMessage)
    else Ok(Join(delimiter, Converted(t, l, s, NONE)))
  }

  /** The first character of every word, each as a one-character string. */
  function Initials(ws: seq<string>): (r: seq<string>)
    requires forall k :: 0 <= k < |ws| ==> ws[k] != []
    ensures |r| == |ws|
  {
    seq(|ws|, k requires 0 <= k < |ws| => [ws[k][0]])
  }

  /** What `Abbr(str, delimiter)` returns. */
  function AbbrOf(t: CharTables, l: DictLoader, s: string, delimiter: string): string {
    var ws := Converted(t, l, s, NONE);
    SplitResultNonEmpty(t, Romanized(t, l, s, false), NONE);
    Join(delimiter, Initials(ws))
  }

  /** What `Phrase(str, delimiter, option)` returns. */
  function PhraseOf(t: CharTables, l: DictLoader, s: string, delimiter: string, option: string): string {
    Join(delimiter, Converted(t, l, s, option))
  }

  // ---------------------------------------------------------------------------
  // SplitWords

  /** No element of the split is empty, in any mode. */
  lemma SplitResultNonEmpty(t: CharTables, pinyin: string, option: string)
    ensures forall k :: 0 <= k < |SplitResult(t, pinyin, option)| ==> SplitResult(t, pinyin, option)[k] != []
  {
    var ws := Tokens(WordClass(t), pinyin);
    if option != UNICODE && ws != [] {
      assert pinyin != [];
      FormatKeepsShape(pinyin);
      FormatToneSuffix(pinyin);
    }
  }

  /**
   * In `UNICODE` mode the split is the maximal runs of class characters, in
   * order: each non-empty and made of class characters, and together exactly
   * the class characters of the input. Maximal: a word of class characters
   * is one element, and every character outside the class cuts the text into
   * two halves split independently.
   */
  lemma SplitWordsUnicode(t: CharTables, pinyin: string)
    ensures var r := SplitResult(t, pinyin, UNICODE);
      && (forall k :: 0 <= k < |r| ==> r[k] != [])
      && (forall k, i :: 0 <= k < |r| && 0 <= i < |r[k]| ==> InWord(t, r[k][i]))
      && Flatten(r) == Filter(WordClass(t), pinyin)
    ensures pinyin != [] && (forall i :: 0 <= i < |pinyin| ==> InWord(t, pinyin[i])) ==>
      SplitResult(t, pinyin, UNICODE) == [pinyin]
    ensures forall i :: 0 <= i < |pinyin| && !InWord(t, pinyin[i]) ==>
      SplitResult(t, pinyin, UNICODE) == SplitResult(t, pinyin[..i], UNICODE) + SplitResult(t, pinyin[i + 1..], UNICODE)
  {
    TokensCover(WordClass(t), pinyin);
    TokensCut(WordClass(t), pinyin);
  }

  /**
   * The class is case-sensitive: an upper-case letter separates words, in
   * every mode, and no element of the `UNICODE` split holds one.
   */
  lemma SplitWordsUpperCase(t: CharTables, x: string, c: char, y: string, option: string)
    requires 'A' <= c <= 'Z'
    ensures |SplitResult(t, x + [c] + y, option)| == |SplitResult(t, x, option)| + |SplitResult(t, y, option)|
    ensures option == UNICODE ==>
      SplitResult(t, x + [c] + y, UNICODE) == SplitResult(t, x, UNICODE) + SplitResult(t, y, UNICODE)
    ensures forall k, i :: 0 <= k < |SplitResult(t, x, UNICODE)| && 0 <= i < |SplitResult(t, x, UNICODE)[k]| ==>
      !('A' <= SplitResult(t, x, UNICODE)[k][i] <= 'Z')
  {
    UpperCaseSeparates(t, c);
    TokensSplit(WordClass(t), x, c, y);
    forall d | 'A' <= d <= 'Z' ensures !InWord(t, d) {
      UpperCaseSeparates(t, d);
    }
  }

  /**
   * Outside `UNICODE` mode there are as many elements as runs, and each is
   * the whole input formatted: with `ASCII` its tone-less form followed by
   * the tone digits, otherwise as long as the input and free of the 28
   * marked vowels.
   */
  lemma SplitWordsFormatted(t: CharTables, pinyin: string, option: string)
    requires option != UNICODE
    ensures var r := SplitResult(t, pinyin, option); var f := Formatted(pinyin, option == ASCII);
      && |r| == |Tokens(WordClass(t), pinyin)|
      && (forall k :: 0 <= k < |r| ==> r[k] == f)
      && (option == ASCII ==> f == Formatted(pinyin, false) + AppendedDigits(pinyin))
      && (option != ASCII ==> |f| == |pinyin| && forall i :: 0 <= i < |Replacements| ==> !Contains(f, Replacements[i].key))
  {
    FormatToneSuffix(pinyin);
    FormatKeepsShape(pinyin);
    FormatRemovesAllKeys(pinyin);
  }

  // ---------------------------------------------------------------------------
  // Permalink, Abbr, Phrase

  /** Outside `UNICODE` and `ASCII` mode the split is one tone-less formatted copy of the input per run. */
  lemma SplitNoneCopies(t: CharTables, pinyin: string)
    ensures SplitResult(t, pinyin, NONE) == seq(|Tokens(WordClass(t), pinyin)|, _ => Formatted(pinyin, false))
  {
  }

  /**
   * `Permalink` fails exactly for a delimiter other than "_", "-", "." and
   * "", with the fixed message. Otherwise, with `n` runs in the romanized
   * text, it is `n` copies of the tone-less formatted text joined by the
   * delimiter: made of the characters of that text and the delimiter only,
   * so without any tone-marked vowel.
   */
  lemma PermalinkShape(t: CharTables, l: DictLoader, s: string, delimiter: string)
    ensures PermalinkOf(t, l, s, delimiter).Err? <==>
      delimiter != "_" && delimiter != "-" && delimiter != "." && delimiter != ""
    ensures PermalinkOf(t, l, s, delimiter).Err? ==> PermalinkOf(t, l, s, delimiter).message == DelimiterMessage
    ensures var p := Romanized(t, l, s, false); var n := |Tokens(WordClass(t), p)|; var f := Formatted(p, false);
      var r := PermalinkOf(t, l, s, delimiter);
      r.Ok? ==>
        && r.value == Join(delimiter, seq(n, _ => f))
        && (n > 0 ==> |r.value| == n * |f| + (n - 1) * |delimiter|)
        && (forall c :: c in r.value ==> c in f || c in delimiter)
        && (forall i :: 0 <= i < |Replacements| && |Replacements[i].key| == 1 ==> Replacements[i].key[0] !in r.value)
  {
    var p := Romanized(t, l, s, false);
    DelimiterAllowed(delimiter);
    if delimiter in PermalinkDelimiters {
      assert PermalinkOf(t, l, s, delimiter) == Ok(Join(delimiter, SplitResult(t, p, NONE)));
      JoinedCopies(t, p, delimiter);
    }
  }

  /** The four delimiters `Permalink` accepts, all ASCII. */
  lemma DelimiterAllowed(delimiter: string)
    ensures delimiter in PermalinkDelimiters <==>
      delimiter == "_" || delimiter == "-" || delimiter == "." || delimiter == ""
    ensures delimiter in PermalinkDelimiters ==> forall c :: c in delimiter ==> !NonAscii(c)
  {
  }

  /** The joined `NONE` split of any text, for a delimiter of ASCII characters. */
  lemma JoinedCopies(t: CharTables, pinyin: string, delimiter: string)
    requires forall c :: c in delimiter ==> !NonAscii(c)
    ensures var n := |Tokens(WordClass(t), pinyin)|; var f := Formatted(pinyin, false);
      var v := Join(delimiter, SplitResult(t, pinyin, NONE));
      && v == Join(delimiter, seq(n, _ => f))
      && (n > 0 ==> |v| == n * |f| + (n - 1) * |delimiter|)
      && (forall c :: c in v ==> c in f || c in delimiter)
      && (forall i :: 0 <= i < |Replacements| && |Replacements[i].key| == 1 ==> Replacements[i].key[0] !in v)
  {
    var n := |Tokens(WordClass(t), pinyin)|;
    SplitNoneCopies(t, pinyin);
    JoinCopies(delimiter, Formatted(pinyin, false), n);
    FormatRemovesMarkedChars(pinyin);
  }

  /**
   * `Abbr` joins one character per run of the romanized text; since every
   * word of the `NONE` conversion is the whole formatted text, that
   * character is the same each time: the first of the formatted text, which
   * is the first romanized character or the plain vowel it became.
   */
  lemma AbbrShape(t: CharTables, l: DictLoader, s: string, delimiter: string)
    ensures var n := |Tokens(WordClass(t), Romanized(t, l, s, false))|;
      && (n == 0 ==> AbbrOf(t, l, s, delimiter) == [])
      && (n > 0 ==> |AbbrOf(t, l, s, delimiter)| == n + (n - 1) * |delimiter|)
    ensures var p := Romanized(t, l, s, false); var n := |Tokens(WordClass(t), p)|;
      n > 0 ==> (
        && p != [] && Formatted(p, false) != []
        && var c := Formatted(p, false)[0];
          && (c == p[0] || IsBaseLetter(c))
          && forall k :: 0 <= k < n ==> Initials(Converted(t, l, s, NONE))[k] == [c])
  {
    var p := Romanized(t, l, s, false);
    SplitResultNonEmpty(t, p, NONE);
    var ins := Initials(Converted(t, l, s, NONE));
    JoinSinglesLength(delimiter, ins);
    if Tokens(WordClass(t), p) != [] {
      FormatKeepsShape(p);
    }
  }

  /**
   * Splitting a `UNICODE` phrase again, with a non-empty delimiter that has
   * no class character, gives back the words it was joined from.
   */
  lemma PhraseSplitsBack(t: CharTables, l: DictLoader, s: string, delimiter: string)
    requires delimiter != [] && forall i :: 0 <= i < |delimiter| ==> !InWord(t, delimiter[i])
    ensures Tokens(WordClass(t), PhraseOf(t, l, s, delimiter, UNICODE)) == Converted(t, l, s, UNICODE)
  {
    TokensOfJoin(WordClass(t), delimiter, Tokens(WordClass(t), Romanized(t, l, s, false)));
  }
}
